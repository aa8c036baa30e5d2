/** What every run of the install machine keeps, at every step and after a crash or a loss of power at any step. */
module SeedSafety {
  import opened Common
  import opened SeedInstall

  /** The file a run is still building, if it is. */
  function Building(phase: Phase): Option<nat> {
    match phase
    case SettingMode(ino) => Some(ino)
    case SettingOwner(ino) => Some(ino)
    case Writing(ino, _) => Some(ino)
    case Closing(ino) => Some(ino)
    case Placing(ino) => Some(ino)
    case _ => None
  }

  predicate ClosedToRoot(file: File) {
    file.uid == ROOT_UID && file.gid == ROOT_GID && file.mode == FILE_MODE
  }

  /** How far the file of a run has got. */
  predicate BuiltSoFar(run: Run, inode: Inode) {
    match run.phase
    case SettingMode(_) => inode.file.data == []
    case SettingOwner(_) => inode.file.data == [] && inode.file.mode == FILE_MODE
    case Writing(_, written) => written <= |run.document| && inode.file == Final(run.document[..written])
    case Closing(_) => inode == Inode(Final(run.document), true)
    case Placing(_) => inode == Inode(Final(run.document), true)
    case _ => true
  }

  /** A run building a file has it to itself, under its own temporary name. */
  predicate OwnsItsFile(w: World, first: nat, id: nat)
    requires id in w.runs
  {
    var ino := Building(w.runs[id].phase);
    ino.Some? ==>
      && first <= ino.value < w.next && ino.value in w.disk.inodes
      && Entry(w.disk, Temporary(id)) == ino
      && ino !in w.disk.durable
      && BuiltSoFar(w.runs[id], w.disk.inodes[ino.value])
  }

  /** What the destination may name: what it named at the start, or a placed run's finished file, safely on disk. */
  ghost predicate IsWhole(w: World, start: World, entry: Option<nat>) {
    || entry == Entry(start.disk, Destination)
    || (entry.Some? && start.next <= entry.value && entry.value in w.disk.inodes && w.disk.inodes[entry.value].synced
        && exists id :: id in w.runs && w.runs[id].placed && w.disk.inodes[entry.value].file == Final(w.runs[id].document))
  }

  predicate PlacedWithoutReplace(w: World, id: nat) {
    id in w.runs && w.runs[id].placed && !w.runs[id].replace
  }

  ghost predicate DiskKept(w: World, start: World) {
    && start.next <= w.next && (forall ino :: ino in start.disk.inodes ==> ino < start.next)
    && (forall name :: name in start.disk.entries ==> start.disk.entries[name] in start.disk.inodes)
    && (forall ino :: ino in w.disk.inodes ==> ino < w.next && (ino in start.disk.inodes || start.next <= ino))
    && (forall name :: name in w.disk.entries ==> w.disk.entries[name] in w.disk.inodes)
    && (forall ino :: ino in start.disk.inodes ==> ino in w.disk.inodes && w.disk.inodes[ino] == start.disk.inodes[ino])
    && (forall ino :: ino in w.disk.inodes && ino >= start.next && w.disk.inodes[ino].file.data != [] ==>
          ClosedToRoot(w.disk.inodes[ino].file))
  }

  ghost predicate RunsKept(w: World, start: World) {
    && (forall id :: id in w.runs ==> OwnsItsFile(w, start.next, id))
    && (forall id, k :: id in w.runs && k in w.runs && id != k && Building(w.runs[id].phase).Some? ==>
          Building(w.runs[id].phase) != Building(w.runs[k].phase))
    && (forall id :: id in w.runs && w.runs[id].phase.Exited? ==> Temporary(id) !in w.disk.entries)
  }

  /** Runs that have placed their file are marked so, and the names of those that have made none are as they were. */
  ghost predicate PhasesKept(w: World, start: World) {
    && (forall id :: id in w.runs && PastPlacing(w.runs[id].phase) ==> w.runs[id].placed)
    && (forall id :: NotOpened(w, id) ==> Entry(w.disk, Temporary(id)) == Entry(start.disk, Temporary(id)))
  }

  /** A run that has put its file in place, by where it is. */
  predicate PastPlacing(phase: Phase) {
    phase.FlushingDirectory? || phase.ReadingBack? || phase == Sweeping(Success) || phase == Exited(Success)
  }

  /** A run that has made no file: not begun, about to open, or refused by the opening. */
  predicate NotOpened(w: World, id: nat) {
    id !in w.runs || w.runs[id].phase.Opening? || w.runs[id].phase.NeverOpened?
  }

  ghost predicate DestinationKept(w: World, start: World) {
    && Entry(w.disk, Destination) in w.disk.durable
    && (forall entry :: entry in w.disk.durable ==> IsWhole(w, start, entry))
    && (forall id :: id in w.runs && w.runs[id].placed ==> Destination in w.disk.entries)
    && ((forall id :: id in w.runs ==> !w.runs[id].placed) ==> Entry(w.disk, Destination) == Entry(start.disk, Destination))
    && (forall id :: PlacedWithoutReplace(w, id) ==> Destination !in start.disk.entries)
    && (forall id, k :: PlacedWithoutReplace(w, id) && PlacedWithoutReplace(w, k) ==> id == k)
  }

  ghost predicate Inv(w: World, start: World) {
    DiskKept(w, start) && RunsKept(w, start) && PhasesKept(w, start) && DestinationKept(w, start)
  }

  lemma StepKeepsOtherRuns(w: World, id: nat, answer: Answer, t: World)
    requires id in w.runs && Step(w, id, answer) == Some(t)
    ensures t.runs == w.runs[id := t.runs[id]]
    ensures t.runs[id].document == w.runs[id].document && t.runs[id].replace == w.runs[id].replace
    ensures w.runs[id].placed ==> t.runs[id].placed
    ensures t.runs[id].phase.Exited? ==> Temporary(id) !in t.disk.entries
    ensures PastPlacing(t.runs[id].phase) ==> PastPlacing(w.runs[id].phase) || t.runs[id].placed
    ensures NotOpened(t, id) ==> NotOpened(w, id) && Entry(t.disk, Temporary(id)) == Entry(w.disk, Temporary(id))
  {
  }

  lemma StepKeepsOtherNames(w: World, id: nat, answer: Answer, t: World)
    requires id in w.runs && Step(w, id, answer) == Some(t)
    ensures forall name :: name != Temporary(id) && name != Destination ==> Entry(t.disk, name) == Entry(w.disk, name)
  {
  }

  lemma StepKeepsOtherFiles(w: World, id: nat, answer: Answer, t: World)
    requires id in w.runs && Step(w, id, answer) == Some(t)
    ensures t.next == w.next || t.next == w.next + 1
    ensures t.disk.inodes.Keys <= w.disk.inodes.Keys + (if t.next > w.next then {w.next} else {})
    ensures forall ino :: ino in w.disk.inodes && Some(ino) != Building(w.runs[id].phase) && ino != w.next ==>
              ino in t.disk.inodes && t.disk.inodes[ino] == w.disk.inodes[ino]
    ensures Building(t.runs[id].phase).None? || Building(t.runs[id].phase) == Building(w.runs[id].phase) ||
            (w.runs[id].phase.Opening? && Building(t.runs[id].phase) == Some(w.next))
  {
  }

  /** What the destination may come to name in a step: the file of the run that places it, or what it could before. */
  lemma StepPlacesOwnFile(w: World, id: nat, answer: Answer, t: World)
    requires id in w.runs && Step(w, id, answer) == Some(t)
    ensures forall entry :: entry in t.disk.durable ==>
              entry in w.disk.durable || (w.runs[id].phase.Placing? && entry == Building(w.runs[id].phase) && t.runs[id].placed)
              || entry == Entry(w.disk, Destination)
    ensures Entry(w.disk, Destination) in w.disk.durable ==> Entry(t.disk, Destination) in t.disk.durable
    ensures Destination in w.disk.entries ==> Destination in t.disk.entries
    ensures t.runs[id].placed && !w.runs[id].placed ==>
              Destination in t.disk.entries && (!w.runs[id].replace ==> Destination !in w.disk.entries)
    ensures t.runs[id].placed || Entry(t.disk, Destination) == Entry(w.disk, Destination)
  {
  }

  lemma StepNamesKnownFiles(w: World, first: nat, id: nat, answer: Answer, t: World)
    requires id in w.runs && Step(w, id, answer) == Some(t) && OwnsItsFile(w, first, id)
    requires forall name :: name in w.disk.entries ==> w.disk.entries[name] in w.disk.inodes
    ensures forall name :: name in t.disk.entries ==> t.disk.entries[name] in t.disk.inodes
  {
  }

  /** The bytes of the file a step writes are closed to root. */
  lemma StepWritesClosedBytes(w: World, first: nat, id: nat, answer: Answer, t: World)
    requires id in w.runs && Step(w, id, answer) == Some(t) && OwnsItsFile(w, first, id)
    requires w.next !in w.disk.inodes
    ensures forall ino :: ino in t.disk.inodes && (Some(ino) == Building(w.runs[id].phase) || ino == w.next) ==>
              t.disk.inodes[ino].file.data == [] || ClosedToRoot(t.disk.inodes[ino].file)
  {
  }

  lemma StepKeepsDisk(w: World, start: World, id: nat, answer: Answer, t: World)
    requires Inv(w, start) && id in w.runs && Step(w, id, answer) == Some(t)
    ensures DiskKept(t, start)
  {
    hide Step, IsWhole, BuiltSoFar;
    assert OwnsItsFile(w, start.next, id);
    StepKeepsOtherFiles(w, id, answer, t);
    StepNamesKnownFiles(w, start.next, id, answer, t);
    StepWritesClosedBytes(w, start.next, id, answer, t);
  }

  lemma OpeningOwnsItsFile(w: World, first: nat, id: nat, answer: Answer, t: World)
    requires id in w.runs && Step(w, id, answer) == Some(t) && w.runs[id].phase.Opening?
    requires first <= w.next && Some(w.next) !in w.disk.durable
    ensures OwnsItsFile(t, first, id)
  {
  }

  lemma PreparingKeepsItsFile(w: World, first: nat, id: nat, answer: Answer, t: World)
    requires id in w.runs && Step(w, id, answer) == Some(t)
    requires w.runs[id].phase.SettingMode? || w.runs[id].phase.SettingOwner?
    requires OwnsItsFile(w, first, id)
    ensures OwnsItsFile(t, first, id)
  {
  }

  lemma WritingKeepsItsFile(w: World, first: nat, id: nat, answer: Answer, t: World)
    requires id in w.runs && Step(w, id, answer) == Some(t) && w.runs[id].phase.Writing?
    requires OwnsItsFile(w, first, id)
    ensures OwnsItsFile(t, first, id)
  {
    var run := w.runs[id];
    var written := run.phase.written;
    if answer.Wrote? {
      assert run.document[..written] + run.document[written..written + answer.count] == run.document[..written + answer.count];
    } else if written == |run.document| {
      assert run.document[..written] == run.document;
    }
  }

  lemma FinishingKeepsItsFile(w: World, first: nat, id: nat, answer: Answer, t: World)
    requires id in w.runs && Step(w, id, answer) == Some(t)
    requires !w.runs[id].phase.Opening? && !w.runs[id].phase.SettingMode? && !w.runs[id].phase.SettingOwner? && !w.runs[id].phase.Writing?
    requires OwnsItsFile(w, first, id)
    ensures OwnsItsFile(t, first, id)
  {
  }

  lemma StepKeepsOwnFile(w: World, start: World, id: nat, answer: Answer, t: World)
    requires Inv(w, start) && id in w.runs && Step(w, id, answer) == Some(t) && id in t.runs
    ensures OwnsItsFile(t, start.next, id)
  {
    hide Step, BuiltSoFar;
    assert OwnsItsFile(w, start.next, id);
    match w.runs[id].phase {
      case Opening =>
        assert IsWhole(w, start, Some(w.next)) ==> false;
        OpeningOwnsItsFile(w, start.next, id, answer, t);
      case SettingMode(_) => PreparingKeepsItsFile(w, start.next, id, answer, t);
      case SettingOwner(_) => PreparingKeepsItsFile(w, start.next, id, answer, t);
      case Writing(_, _) => WritingKeepsItsFile(w, start.next, id, answer, t);
      case _ => FinishingKeepsItsFile(w, start.next, id, answer, t);
    }
  }

  lemma StepSparesOthersFile(w: World, start: World, id: nat, answer: Answer, t: World, k: nat)
    requires Inv(w, start) && id in w.runs && Step(w, id, answer) == Some(t)
    requires k in w.runs && k != id && k in t.runs
    ensures OwnsItsFile(t, start.next, k)
  {
    hide Step;
    StepKeepsOtherRuns(w, id, answer, t);
    StepKeepsOtherNames(w, id, answer, t);
    StepKeepsOtherFiles(w, id, answer, t);
    StepPlacesOwnFile(w, id, answer, t);
    assert OwnsItsFile(w, start.next, k) && OwnsItsFile(w, start.next, id);
    assert Entry(t.disk, Temporary(k)) == Entry(w.disk, Temporary(k));
    assert IsWhole(w, start, Entry(w.disk, Destination));
  }

  lemma StepKeepsRuns(w: World, start: World, id: nat, answer: Answer, t: World)
    requires Inv(w, start) && id in w.runs && Step(w, id, answer) == Some(t)
    ensures RunsKept(t, start)
  {
    hide Step, IsWhole;
    StepKeepsOtherRuns(w, id, answer, t);
    forall k | k in t.runs
      ensures OwnsItsFile(t, start.next, k)
    {
      if k == id {
        StepKeepsOwnFile(w, start, id, answer, t);
      } else {
        StepSparesOthersFile(w, start, id, answer, t, k);
      }
    }
    forall j, k | j in t.runs && k in t.runs && j != k && Building(t.runs[j].phase).Some?
      ensures Building(t.runs[j].phase) != Building(t.runs[k].phase)
    {
      StepKeepsOtherFiles(w, id, answer, t);
      assert OwnsItsFile(w, start.next, j) && OwnsItsFile(w, start.next, k);
    }
    forall k | k in t.runs && t.runs[k].phase.Exited?
      ensures Temporary(k) !in t.disk.entries
    {
      StepKeepsOtherNames(w, id, answer, t);
      assert k != id ==> Entry(t.disk, Temporary(k)) == Entry(w.disk, Temporary(k));
    }
  }

  /** A file that was whole stays whole. */
  lemma StepKeepsWhole(w: World, start: World, id: nat, answer: Answer, t: World, entry: Option<nat>)
    requires Inv(w, start) && id in w.runs && Step(w, id, answer) == Some(t)
    requires entry in w.disk.durable
    ensures IsWhole(t, start, entry)
  {
    hide Step;
    StepKeepsOtherRuns(w, id, answer, t);
    StepKeepsOtherFiles(w, id, answer, t);
    assert OwnsItsFile(w, start.next, id) && IsWhole(w, start, entry);
    if entry != Entry(start.disk, Destination) {
      var k :| k in w.runs && w.runs[k].placed && w.disk.inodes[entry.value].file == Final(w.runs[k].document);
      assert k in t.runs && t.runs[k].placed;
    }
  }

  lemma StepKeepsDestination(w: World, start: World, id: nat, answer: Answer, t: World)
    requires Inv(w, start) && id in w.runs && Step(w, id, answer) == Some(t)
    ensures DestinationKept(t, start)
  {
    StepKeepsOtherRuns(w, id, answer, t);
    StepPlacesOwnFile(w, id, answer, t);
    forall entry | entry in t.disk.durable
      ensures IsWhole(t, start, entry)
    {
      if entry in w.disk.durable {
        StepKeepsWhole(w, start, id, answer, t, entry);
      } else {
        assert OwnsItsFile(w, start.next, id);
      }
    }
    hide Step, IsWhole;
    forall j, k | PlacedWithoutReplace(t, j) && PlacedWithoutReplace(t, k)
      ensures j == k && Destination !in start.disk.entries
    {
      assert w.runs[j].placed ==> PlacedWithoutReplace(w, j);
      assert w.runs[k].placed ==> PlacedWithoutReplace(w, k);
    }
  }

  lemma StepKeepsPhases(w: World, start: World, id: nat, answer: Answer, t: World)
    requires PhasesKept(w, start) && id in w.runs && Step(w, id, answer) == Some(t)
    ensures PhasesKept(t, start)
  {
    hide Step;
    StepKeepsOtherRuns(w, id, answer, t);
    StepKeepsOtherNames(w, id, answer, t);
    forall k | NotOpened(t, k)
      ensures Entry(t.disk, Temporary(k)) == Entry(start.disk, Temporary(k))
    {
      assert NotOpened(w, k);
      assert k != id ==> Entry(t.disk, Temporary(k)) == Entry(w.disk, Temporary(k));
    }
  }

  lemma OtherEventKeepsPhases(w: World, start: World, e: Event, t: World)
    requires PhasesKept(w, start) && Next(w, e) == Some(t) && !e.Call?
    ensures PhasesKept(t, start)
  {
    hide Step;
    assert t.disk == w.disk;
    forall k | NotOpened(t, k)
      ensures NotOpened(w, k)
    {
    }
  }

  lemma NextKeepsInv(w: World, start: World, e: Event, t: World)
    requires Inv(w, start) && Next(w, e) == Some(t)
    ensures Inv(t, start)
  {
    hide Step, IsWhole, BuiltSoFar, RunsKept, DiskKept, DestinationKept, PhasesKept;
    if e.Call? {
      StepKeepsPhases(w, start, e.id, e.answer, t);
      StepKeepsDisk(w, start, e.id, e.answer, t);
      StepKeepsRuns(w, start, e.id, e.answer, t);
      StepKeepsDestination(w, start, e.id, e.answer, t);
    } else {
      OtherEventKeepsPhases(w, start, e, t);
      OtherEventKeepsRuns(w, start, e, t);
      OtherEventKeepsDestination(w, start, e, t);
    }
  }

  lemma OtherEventKeepsRuns(w: World, start: World, e: Event, t: World)
    requires Inv(w, start) && Next(w, e) == Some(t) && !e.Call?
    ensures DiskKept(t, start) && RunsKept(t, start)
  {
    hide Step, IsWhole, BuiltSoFar, DestinationKept, PhasesKept, PastPlacing, NotOpened;
    forall k | k in t.runs
      ensures OwnsItsFile(t, start.next, k)
    {
      assert k in w.runs ==> OwnsItsFile(w, start.next, k);
    }
  }

  lemma OtherEventKeepsDestination(w: World, start: World, e: Event, t: World)
    requires Inv(w, start) && Next(w, e) == Some(t) && !e.Call?
    ensures DestinationKept(t, start)
  {
    hide Step, RunsKept, DiskKept;
    forall entry | entry in t.disk.durable
      ensures IsWhole(t, start, entry)
    {
      assert IsWhole(w, start, entry);
      if entry != Entry(start.disk, Destination) {
        var k :| k in w.runs && w.runs[k].placed && w.disk.inodes[entry.value].file == Final(w.runs[k].document);
        assert k in t.runs && t.runs[k].placed;
      }
    }
    assert forall id :: id in w.runs ==> id in t.runs && t.runs[id].placed == w.runs[id].placed && t.runs[id].replace == w.runs[id].replace;
    assert forall id :: PlacedWithoutReplace(t, id) ==> PlacedWithoutReplace(w, id);
    assert (forall id :: id in t.runs ==> !t.runs[id].placed) ==> (forall id :: id in w.runs ==> !w.runs[id].placed);
  }

  lemma {:induction false} AfterKeepsInv(w: World, start: World, events: seq<Event>, t: World)
    requires Inv(w, start) && After(w, events) == Some(t)
    ensures Inv(t, start)
    decreases |events|
  {
    if events != [] {
      var u := Next(w, events[0]).value;
      NextKeepsInv(w, start, events[0], u);
      AfterKeepsInv(u, start, events[1..], t);
    }
  }

  // ---- The claims ----

  /** Unchanged since the start, or one run's whole document, root's and closed to everyone else. */
  ghost predicate UnchangedOrWhole(found: Option<File>, start: World, w: World) {
    || found == Lookup(start.disk, Destination)
    || exists id :: id in w.runs && w.runs[id].placed && found == Some(Final(w.runs[id].document))
  }

  /**
   Crash atomicity. After any steps of any runs, with short writes, failed calls and stopped runs anywhere, the
   destination is unchanged or a whole finished document; and so is what is found there when the machine loses
   power at that moment, even though unflushed bytes may then be anything.
   */
  lemma DestinationIsUnchangedOrWhole(start: World, events: seq<Event>, w: World)
    requires Start(start) && After(start, events) == Some(w)
    ensures UnchangedOrWhole(Lookup(w.disk, Destination), start, w)
    ensures forall found :: AfterPowerLoss(w.disk, found) ==> UnchangedOrWhole(found, start, w)
  {
    AfterKeepsInv(start, start, events, w);
    assert IsWhole(w, start, Entry(w.disk, Destination));
    forall found | AfterPowerLoss(w.disk, found)
      ensures UnchangedOrWhole(found, start, w)
    {
      var entry :| entry in w.disk.durable &&
        match entry
        case None => found.None?
        case Some(ino) => found.Some? && (ino in w.disk.inodes && w.disk.inodes[ino].synced ==> found.value == w.disk.inodes[ino].file);
      assert IsWhole(w, start, entry);
    }
  }

  /**
   Without `replace` nothing is overwritten: a destination that was there stays as it was when no run replaces it,
   and of any runs without `replace` at most one puts its file in place, and none when one was there.
   */
  lemma NothingIsOverwritten(start: World, events: seq<Event>, w: World)
    requires Start(start) && After(start, events) == Some(w)
    ensures forall id, k :: PlacedWithoutReplace(w, id) && PlacedWithoutReplace(w, k) ==> id == k
    ensures Destination in start.disk.entries ==> forall id :: !PlacedWithoutReplace(w, id)
    ensures (forall id :: id in w.runs ==> !w.runs[id].replace) && Destination in start.disk.entries ==>
              Lookup(w.disk, Destination) == Lookup(start.disk, Destination)
  {
    AfterKeepsInv(start, start, events, w);
    if (forall id :: id in w.runs ==> !w.runs[id].replace) && Destination in start.disk.entries {
      forall id | id in w.runs
        ensures !w.runs[id].placed
      {
        assert !PlacedWithoutReplace(w, id);
      }
    }
  }

  predicate SucceededWithoutReplace(w: World, id: nat) {
    id in w.runs && w.runs[id].phase == Exited(Success) && !w.runs[id].replace
  }

  /** Of any runs without `replace`, however they interleave, at most one ends in success, and none when a destination was there. */
  lemma OneRunSucceeds(start: World, events: seq<Event>, w: World)
    requires Start(start) && After(start, events) == Some(w)
    ensures forall id, k :: SucceededWithoutReplace(w, id) && SucceededWithoutReplace(w, k) ==> id == k
    ensures Destination in start.disk.entries ==> forall id :: !SucceededWithoutReplace(w, id)
  {
    AfterKeepsInv(start, start, events, w);
    NothingIsOverwritten(start, events, w);
    assert forall id :: SucceededWithoutReplace(w, id) ==> PastPlacing(w.runs[id].phase) && PlacedWithoutReplace(w, id);
  }

  /**
   A run that ended with its sweep done left no temporary file, whatever the outcome; and one that could not open its
   file left its temporary name as it was before any run.
   */
  lemma EndedRunLeavesNoTemporary(start: World, events: seq<Event>, w: World, id: nat)
    requires Start(start) && After(start, events) == Some(w) && id in w.runs
    ensures w.runs[id].phase.Exited? ==> Temporary(id) !in w.disk.entries
    ensures w.runs[id].phase.NeverOpened? ==> Entry(w.disk, Temporary(id)) == Entry(start.disk, Temporary(id))
  {
    AfterKeepsInv(start, start, events, w);
    assert w.runs[id].phase.NeverOpened? ==> NotOpened(w, id);
  }

  /** No byte of any document is ever in a file that is not root's and closed to everyone else. */
  lemma BytesAreAlwaysClosed(start: World, events: seq<Event>, w: World, ino: nat)
    requires Start(start) && After(start, events) == Some(w)
    requires ino in w.disk.inodes && ino !in start.disk.inodes && w.disk.inodes[ino].file.data != []
    ensures ClosedToRoot(w.disk.inodes[ino].file)
    ensures var file := w.disk.inodes[ino].file;
            && file.uid == 0 && file.gid == 0
            && file.mode % 8 == 0 && file.mode / 8 % 8 == 0                // nothing for others, nothing for the group
            && file.mode / 64 == 4 + 2                                     // the owner reads and writes
  {
    AfterKeepsInv(start, start, events, w);
  }
}

/**
 What the outcome of an install run tells: a flushed placement outlives a loss of power, and each outcome is given for
 its own reason only.
 */
module SeedDurability {
  import opened Common
  import opened SeedInstall
  import opened SeedSafety

  /** A run whose directory flush is done. */
  predicate PastFlush(phase: Phase) {
    || phase.ReadingBack?
    || phase == Sweeping(Success) || phase == Exited(Success)
    || phase == Sweeping(NotReadBack) || phase == Exited(NotReadBack)
  }

  predicate FoundThere(phase: Phase) {
    phase == Sweeping(AlreadyExists) || phase == Exited(AlreadyExists)
  }

  /** The destination names a file made since the start. */
  predicate DestinationIsNew(w: World, start: World) {
    Destination in w.disk.entries && w.disk.entries[Destination] >= start.next
  }

  /** Nothing from before the start can come back. */
  ghost predicate NothingOldIsDurable(w: World, start: World) {
    forall entry :: entry in w.disk.durable ==> entry.Some? && entry.value >= start.next
  }

  /** What holds of one run by where it is. */
  predicate Consistent(w: World, id: nat)
    requires id in w.runs
  {
    var run := w.runs[id];
    && (run.placed ==> !run.phase.Opening? && Building(run.phase).None?)
    && (PastFlush(run.phase) || PastPlacing(run.phase) ==> run.placed)
    && (FoundThere(run.phase) ==> !run.replace && !run.placed && Destination in w.disk.entries)
    && (run.placed && run.replace ==> Temporary(id) !in w.disk.entries && !run.phase.SweepFailed?)
  }

  /** A placement leaves a new file at the destination, and a directory flush leaves nothing old to come back. */
  ghost predicate TellsTruth(w: World, start: World, id: nat)
    requires id in w.runs
  {
    && Consistent(w, id)
    && (w.runs[id].placed ==> DestinationIsNew(w, start))
    && (PastFlush(w.runs[id].phase) ==> NothingOldIsDurable(w, start))
  }

  ghost predicate AllTellTruth(w: World, start: World) {
    forall id :: id in w.runs ==> TellsTruth(w, start, id)
  }

  // ---- One step ----

  lemma StepKeepsConsistent(w: World, id: nat, answer: Answer, t: World)
    requires id in w.runs && Step(w, id, answer) == Some(t) && Consistent(w, id)
    ensures Consistent(t, id)
  {
    hide Lookup;
  }

  /** A step that places its file makes the destination name it; no other changes what the destination names. */
  lemma StepNamesDestination(w: World, id: nat, answer: Answer, t: World)
    requires id in w.runs && Step(w, id, answer) == Some(t)
    ensures if w.runs[id].phase.Placing? && t.runs[id].phase.FlushingDirectory?
            then Entry(t.disk, Destination) == Building(w.runs[id].phase)
            else Entry(t.disk, Destination) == Entry(w.disk, Destination) && t.runs[id].placed == w.runs[id].placed
  {
    hide Lookup;
  }

  /** A run gets past its directory flush only by a flush that is done. */
  lemma StepSettles(w: World, id: nat, answer: Answer, t: World)
    requires id in w.runs && Step(w, id, answer) == Some(t)
    ensures PastFlush(t.runs[id].phase) ==>
              PastFlush(w.runs[id].phase) || (w.runs[id].phase.FlushingDirectory? && t.disk.durable == {Entry(w.disk, Destination)})
  {
    hide Lookup;
  }

  /** After a step the destination is still new if it was, and if the step's run has placed its file. */
  lemma StepKeepsNew(w: World, start: World, id: nat, answer: Answer, t: World)
    requires Inv(w, start) && id in w.runs && Step(w, id, answer) == Some(t) && id in t.runs
    ensures DestinationIsNew(w, start) ==> DestinationIsNew(t, start)
    ensures t.runs[id].placed ==> w.runs[id].placed || DestinationIsNew(t, start)
    ensures NothingOldIsDurable(w, start) ==> NothingOldIsDurable(t, start)
  {
    assert OwnsItsFile(w, start.next, id);
    assert Entry(w.disk, Destination) in w.disk.durable;
    StepNamesDestination(w, id, answer, t);
    StepPlacesOwnFile(w, id, answer, t);
    hide Step, BuiltSoFar, DestinationKept, PhasesKept, DiskKept, RunsKept;
  }

  lemma StepTellsTruth(w: World, start: World, id: nat, answer: Answer, t: World)
    requires Inv(w, start) && AllTellTruth(w, start) && id in w.runs && Step(w, id, answer) == Some(t) && id in t.runs
    ensures TellsTruth(t, start, id)
  {
    hide Step, Inv;
    assert TellsTruth(w, start, id);
    StepKeepsConsistent(w, id, answer, t);
    StepKeepsNew(w, start, id, answer, t);
    StepSettles(w, id, answer, t);
    hide Consistent;
    assert w.runs[id].phase.FlushingDirectory? ==> w.runs[id].placed by {
      assert Consistent(w, id);
    }
  }

  lemma StepLeavesOthersTruth(w: World, start: World, id: nat, answer: Answer, t: World, k: nat)
    requires Inv(w, start) && id in w.runs && Step(w, id, answer) == Some(t)
    requires k in w.runs && k != id && k in t.runs && id in t.runs && TellsTruth(w, start, k)
    ensures TellsTruth(t, start, k)
  {
    StepKeepsNew(w, start, id, answer, t);
    StepKeepsOtherRuns(w, id, answer, t);
    StepKeepsOtherNames(w, id, answer, t);
    StepPlacesOwnFile(w, id, answer, t);
    hide Step, Inv, NothingOldIsDurable, DestinationIsNew;
    assert Entry(t.disk, Temporary(k)) == Entry(w.disk, Temporary(k));
  }

  lemma NextTellsTruth(w: World, start: World, e: Event, t: World)
    requires Inv(w, start) && AllTellTruth(w, start) && Next(w, e) == Some(t)
    ensures AllTellTruth(t, start)
  {
    hide Inv, Step, NothingOldIsDurable, DestinationIsNew;
    forall k | k in t.runs
      ensures TellsTruth(t, start, k)
    {
      if e.Call? {
        StepKeepsOtherRuns(w, e.id, e.answer, t);
        assert k in w.runs && TellsTruth(w, start, k);
        if k == e.id {
          StepTellsTruth(w, start, k, e.answer, t);
        } else {
          StepLeavesOthersTruth(w, start, e.id, e.answer, t, k);
        }
      } else {
        OtherEventTellsTruth(w, start, e, t, k);
      }
    }
  }

  lemma OtherEventTellsTruth(w: World, start: World, e: Event, t: World, k: nat)
    requires !e.Call? && Next(w, e) == Some(t) && k in t.runs && (k in w.runs ==> TellsTruth(w, start, k))
    ensures TellsTruth(t, start, k)
  {
    assert t.disk == w.disk;
    hide NothingOldIsDurable;
    assert NothingOldIsDurable(w, start) ==> NothingOldIsDurable(t, start) by {
      if NothingOldIsDurable(w, start) {
        NothingOldElsewhere(w, t, start);
      }
    }
  }

  lemma NothingOldElsewhere(w: World, t: World, start: World)
    requires t.disk == w.disk && NothingOldIsDurable(w, start)
    ensures NothingOldIsDurable(t, start)
  {
  }

  lemma {:induction false} AfterTellsTruth(w: World, start: World, events: seq<Event>, t: World)
    requires Inv(w, start) && AllTellTruth(w, start) && After(w, events) == Some(t)
    ensures AllTellTruth(t, start) && Inv(t, start)
    decreases |events|
  {
    hide Inv, AllTellTruth, Next;
    if events != [] {
      var u := Next(w, events[0]).value;
      NextKeepsInv(w, start, events[0], u);
      NextTellsTruth(w, start, events[0], u);
      AfterTellsTruth(u, start, events[1..], t);
    }
  }

  lemma StartTellsTruth(start: World, events: seq<Event>, w: World)
    requires Start(start) && After(start, events) == Some(w)
    ensures AllTellTruth(w, start) && Inv(w, start)
  {
    AfterTellsTruth(start, start, events, w);
  }

  // ---- The claims ----

  /**
   Once any run is past its directory flush, as every run that ended in success is, a loss of power at any later moment
   brings back some run's whole document: never nothing, and never what was there before.
   */
  lemma SuccessSurvivesPowerLoss(start: World, events: seq<Event>, w: World, id: nat, found: Option<File>)
    requires Start(start) && After(start, events) == Some(w) && id in w.runs && PastFlush(w.runs[id].phase)
    requires AfterPowerLoss(w.disk, found)
    ensures exists k :: k in w.runs && w.runs[k].placed && found == Some(Final(w.runs[k].document))
  {
    StartTellsTruth(start, events, w);
    assert TellsTruth(w, start, id);
    hide After, AllTellTruth;
    var entry :| entry in w.disk.durable &&
      match entry
      case None => found.None?
      case Some(ino) => found.Some? && (ino in w.disk.inodes && w.disk.inodes[ino].synced ==> found.value == w.disk.inodes[ino].file);
    assert IsWhole(w, start, entry);
  }

  /** A run says that the destination exists only when it was not to replace it, it is there, and the run put nothing there itself. */
  lemma ExistsMeansThere(start: World, events: seq<Event>, w: World, id: nat)
    requires Start(start) && After(start, events) == Some(w) && id in w.runs && w.runs[id].phase == Exited(AlreadyExists)
    ensures !w.runs[id].replace && !w.runs[id].placed && Destination in w.disk.entries
  {
    StartTellsTruth(start, events, w);
    assert TellsTruth(w, start, id);
    hide After, AllTellTruth, Inv;
  }

  /** A run that fails its read-back has put its file in place, and a run that replaced the destination has nothing left to sweep. */
  lemma PlacedMeansPlaced(start: World, events: seq<Event>, w: World, id: nat)
    requires Start(start) && After(start, events) == Some(w) && id in w.runs
    ensures w.runs[id].phase == Exited(NotReadBack) || w.runs[id].phase == Exited(Success) ==> w.runs[id].placed
    ensures w.runs[id].placed ==> Destination in w.disk.entries && Lookup(w.disk, Destination).Some?
    ensures w.runs[id].placed && w.runs[id].replace ==> Temporary(id) !in w.disk.entries && !w.runs[id].phase.SweepFailed?
  {
    StartTellsTruth(start, events, w);
    assert TellsTruth(w, start, id);
    hide After, AllTellTruth, RunsKept, PhasesKept;
  }

  /** Only a directory flush that is done takes back what a loss of power may bring back. */
  lemma OnlyFlushSettles(w: World, e: Event, t: World)
    requires Next(w, e) == Some(t)
    requires !(e.Call? && e.answer.Done? && e.id in w.runs && w.runs[e.id].phase.FlushingDirectory?)
    ensures w.disk.durable <= t.disk.durable
    ensures t.disk.durable != w.disk.durable ==> e.Call? && e.id in w.runs && w.runs[e.id].phase.Placing? && t.runs[e.id].placed
  {
    hide Lookup;
  }

  /** Reading back succeeds exactly for the run's own document, root's and closed, of at most a megabyte; anything else is reported as not read back. */
  lemma ReadBackIsExact(w: World, id: nat, answer: Answer, t: World)
    requires id in w.runs && w.runs[id].phase.ReadingBack? && Step(w, id, answer) == Some(t)
    ensures t.disk == w.disk
    ensures t.runs[id].phase == Sweeping(Success) <==>
            && answer.Done? && Lookup(w.disk, Destination) == Some(File(w.runs[id].document, 0, 0, 6 * 64))
            && |w.runs[id].document| <= 1024 * 1024
    ensures t.runs[id].phase == Sweeping(Success) || t.runs[id].phase == Sweeping(NotReadBack)
  {
  }

  /** A run begins with its own document and choice, and has done nothing; one that is stopped, or ended, makes no more calls. */
  lemma StoppedRunIsSilent(w: World, id: nat, e: Event, t: World)
    requires Next(w, e) == Some(t)
    ensures e == Crash(id) ==> id in w.runs && t.disk == w.disk && t.runs == w.runs[id := w.runs[id].(phase := Dead)]
    ensures id in w.runs && Ended(w.runs[id].phase) ==> id in t.runs && t.runs[id] == w.runs[id]
    ensures forall document, replace :: e == Begin(id, document, replace) ==>
              t.disk == w.disk && id !in w.runs && t.runs == w.runs[id := Run(document, replace, Opening, false)]
  {
    hide Lookup;
  }

  /** The temporary file is created anew: a name that is taken is never opened, and what it names stays as it is. */
  lemma OpeningIsExclusive(w: World, id: nat, answer: Answer, t: World)
    requires id in w.runs && w.runs[id].phase.Opening? && Step(w, id, answer) == Some(t)
    ensures Temporary(id) in w.disk.entries ==> t.disk == w.disk && t.runs[id].phase.NeverOpened?
    ensures t.runs[id].phase.NeverOpened? || t.runs[id].phase == SettingMode(w.next)
    ensures t.runs[id].phase.SettingMode? ==>
              t.disk.entries == w.disk.entries[Temporary(id) := w.next] && w.next in t.disk.inodes && t.disk.inodes[w.next].file.data == []
  {
    hide Lookup;
  }
}

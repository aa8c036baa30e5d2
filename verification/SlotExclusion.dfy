/**
 Mutual exclusion of the Docker slots, over every run of any number of sessions and processes: for as long as every
 removal spares the slots in other sessions' hands, and so always where a stale check and its removal, and the creation
 and the writing of an owner file, are one step each.
 */
module SlotExclusion {
  import opened Common
  import opened Text
  import opened Slots

  predicate Holds(s: System, id: nat) {
    id in s.sessions && (s.sessions[id].phase.Holding? || s.sessions[id].phase.Removing?)
  }

  function Holders(s: System): set<nat> {
    set id | id in s.sessions && Holds(s, id)
  }

  /** An owner text that reads back as itself and names the session's own process. */
  predicate WellNamed(pid: nat, mine: string) {
    mine != "" && Trim(mine + "\n") == mine && OwnerPid(Some(mine)) == Some(pid)
  }

  lemma OwnerTextWellNamed(pid: nat, title: string)
    ensures WellNamed(pid, OwnerText(pid, title))
  {
    OwnerTextNamesItsProcess(pid, title);
  }

  predicate OwnsSlot(s: System, id: nat, max: nat)
    requires Holds(s, id)
  {
    var i := s.sessions[id].phase.slot;
    1 <= i <= max && i in s.slots && s.slots[i].owner == Written(s.sessions[id].mine + "\n")
  }

  /** A session scans from slot 1 and makes, opens or holds no slot past `max`. */
  predicate InRange(session: Session, max: nat) {
    match session.phase
    case Scanning(i) => i >= 1
    case Ended => true
    case _ => 1 <= session.phase.slot <= max
  }

  predicate IsOpen(s: System, id: nat) {
    id in s.sessions && s.sessions[id].phase.Opened?
  }

  /** The file a session has open is in its slot. */
  predicate OpenInPlace(s: System, id: nat)
    requires IsOpen(s, id)
  {
    var i := s.sessions[id].phase.slot;
    i in s.slots && s.slots[i].owner == Opening(id)
  }

  /** Sessions belong to running processes, a holder's own text is in its slot, a slot has one holder, and an open file is in place. */
  ghost predicate Inv(s: System, max: nat) {
    && (forall id :: id in s.sessions ==>
          s.sessions[id].pid in s.running && WellNamed(s.sessions[id].pid, s.sessions[id].mine) && InRange(s.sessions[id], max))
    && OneHolderEach(s)
    && (forall id :: Holds(s, id) ==> OwnsSlot(s, id, max))
    && (forall id :: IsOpen(s, id) ==> OpenInPlace(s, id))
  }

  /** Two holders of one slot are one session. */
  ghost predicate OneHolderEach(s: System) {
    forall id, k :: Holds(s, id) && Holds(s, k) && s.sessions[id].phase.slot == s.sessions[k].phase.slot ==> id == k
  }

  /** Whether a session holds the slot or has an owner file open for it. */
  predicate InHand(s: System, k: nat, slot: nat) {
    (Holds(s, k) || IsOpen(s, k)) && s.sessions[k].phase.slot == slot
  }

  /** The slot that a step of a reclaim takes away, if it takes one away. */
  function Removes(s: System, e: Event): Option<nat> {
    if e.Remove? && e.removal.Removed? && e.id in s.sessions && s.sessions[e.id].phase.Condemned?
    then Some(s.sessions[e.id].phase.slot)
    else if e.Reclaim? && e.removal.Removed? && e.id in s.sessions && s.sessions[e.id].phase.Occupied? &&
            s.sessions[e.id].phase.slot in s.slots && Stale(s.slots[s.sessions[e.id].phase.slot], s.running, s.now)
    then Some(s.sessions[e.id].phase.slot)
    else None
  }

  /** A slot that is taken away is in no session's hands at that moment. */
  ghost predicate Spares(s: System, e: Event) {
    Removes(s, e).Some? ==> forall k :: !InHand(s, k, Removes(s, e).value)
  }

  /** Every removal of a run spares the slots in other sessions' hands at that moment. */
  ghost predicate AllSpare(s: System, events: seq<Event>, max: nat)
    decreases |events|
  {
    events != [] ==> Spares(s, events[0]) && (Next(s, events[0], max).Some? ==> AllSpare(Next(s, events[0], max).value, events[1..], max))
  }

  /** A slot held by a live session of a running process is never stale. */
  lemma HeldSlotIsNotStale(s: System, id: nat, max: nat)
    requires Inv(s, max) && Holds(s, id)
    ensures OwnsSlot(s, id, max)
    ensures ReadOwner(s.slots[s.sessions[id].phase.slot]) == Some(s.sessions[id].mine)
    ensures !Stale(s.slots[s.sessions[id].phase.slot], s.running, s.now)
  {
    assert WellNamed(s.sessions[id].pid, s.sessions[id].mine);
  }

  /** A session's step changes only its own entry and only the slot it is at. */
  lemma StepIsLocal(s: System, e: Event, max: nat, t: System)
    requires !e.Boot? && !e.Die? && !e.Clock? && !e.Start?
    requires e.id in s.sessions && SessionStep(s, e, max) == Some(t)
    ensures t.running == s.running && t.now == s.now
    ensures t.sessions.Keys == s.sessions.Keys
    ensures forall k :: k in s.sessions && k != e.id ==> t.sessions[k] == s.sessions[k]
    ensures t.sessions[e.id] == s.sessions[e.id].(phase := t.sessions[e.id].phase)
    ensures Live(s.sessions[e.id])
    ensures forall j :: j != s.sessions[e.id].phase.slot ==>
              (j in t.slots <==> j in s.slots) && (j in s.slots ==> t.slots[j] == s.slots[j])
  {
    hide Stale, ReadOwner, FreshSlot, OwnedSlot;
    if e.Reclaim? {
      CheckIsLocal(s, e.id);
    }
  }

  /** The check only moves its session on. */
  lemma CheckIsLocal(s: System, id: nat)
    requires id in s.sessions && s.sessions[id].phase.Occupied?
    ensures var i := s.sessions[id].phase.slot;
            Checked(s, id) == Move(s, id, Condemned(i)) || Checked(s, id) == Move(s, id, Scanning(i + 1))
  {
  }

  /** What a step does to the slot of a session other than its own that holds it or has it open. */
  lemma StepSparesClaim(s: System, e: Event, max: nat, t: System, id: nat)
    requires !e.Boot? && !e.Die? && !e.Clock? && !e.Start?
    requires e.id in s.sessions && SessionStep(s, e, max) == Some(t) && Spares(s, e)
    requires (Holds(s, id) || IsOpen(s, id)) && e.id != id && Live(s.sessions[e.id])
    requires var i := s.sessions[id].phase.slot;
             && s.sessions[e.id].phase.slot == i && i in s.slots
             && (Holds(s, id) ==> s.slots[i].owner.Written? && !Stale(s.slots[i], s.running, s.now))
             && (IsOpen(s, id) ==> s.slots[i].owner == Opening(id))
             && !Holds(s, e.id) && !IsOpen(s, e.id)
    ensures t.slots == s.slots && !Holds(t, e.id) && !IsOpen(t, e.id)
  {
    hide Stale, ReadOwner, FreshSlot, OwnedSlot, OwnerText;
    var i := s.sessions[e.id].phase.slot;
    assert InHand(s, id, i);
    if e.Reclaim? || e.Remove? || e.Check? {
      assert Removes(s, e) == None || Removes(s, e) == Some(i);
      NothingTakenAway(s, e, max, t);
    } else {
      hide Checked, AfterRemoval, Spares;
    }
  }

  /** A step of a reclaim that takes no slot away changes none. */
  lemma NothingTakenAway(s: System, e: Event, max: nat, t: System)
    requires e.Reclaim? || e.Remove? || e.Check?
    requires e.id in s.sessions && SessionStep(s, e, max) == Some(t) && Removes(s, e).None?
    ensures t.slots == s.slots && !Holds(t, e.id) && !IsOpen(t, e.id)
  {
    hide Stale, ReadOwner, FreshSlot, OwnedSlot, OwnerText, AfterOpening, AfterFilling;
  }

  /** Two sessions hold or have open two slots. */
  lemma ClaimsDiffer(s: System, max: nat, id: nat, k: nat)
    requires Inv(s, max) && (Holds(s, id) || IsOpen(s, id)) && id != k
    ensures Holds(s, k) || IsOpen(s, k) ==> s.sessions[k].phase.slot != s.sessions[id].phase.slot
  {
    assert Holds(s, id) ==> OwnsSlot(s, id, max);
    assert IsOpen(s, id) ==> OpenInPlace(s, id);
    assert Holds(s, k) ==> OwnsSlot(s, k, max);
    assert IsOpen(s, k) ==> OpenInPlace(s, k);
  }

  lemma ClaimSurvivesStep(s: System, e: Event, max: nat, t: System, id: nat)
    requires Inv(s, max) && Spares(s, e)
    requires !e.Boot? && !e.Die? && !e.Clock? && !e.Start?
    requires e.id in s.sessions && SessionStep(s, e, max) == Some(t)
    requires (Holds(s, id) || IsOpen(s, id)) && e.id != id
    ensures id in t.sessions && t.sessions[id] == s.sessions[id]
    ensures var i := s.sessions[id].phase.slot;
            && i in s.slots && i in t.slots && t.slots[i] == s.slots[i]
            && (Holds(t, e.id) || IsOpen(t, e.id) ==> t.sessions[e.id].phase.slot != i)
  {
    hide Stale, SessionStep, WellNamed, Spares;
    StepIsLocal(s, e, max, t);
    if Holds(s, id) {
      HeldSlotIsNotStale(s, id, max);
    }
    assert IsOpen(s, id) ==> OpenInPlace(s, id);
    ClaimsDiffer(s, max, id, e.id);
    if s.sessions[e.id].phase.slot == s.sessions[id].phase.slot {
      StepSparesClaim(s, e, max, t, id);
    } else {
      StepStaysAtSlot(s, e, max, t);
    }
  }

  /** A session that comes to hold or open a slot was at that slot already. */
  lemma StepStaysAtSlot(s: System, e: Event, max: nat, t: System)
    requires !e.Boot? && !e.Die? && !e.Clock? && !e.Start?
    requires e.id in s.sessions && Live(s.sessions[e.id]) && SessionStep(s, e, max) == Some(t)
    ensures Holds(t, e.id) || IsOpen(t, e.id) ==> t.sessions[e.id].phase.slot == s.sessions[e.id].phase.slot
  {
    hide Stale, ReadOwner, FreshSlot, OwnedSlot, OwnerText;
  }

  /**
   While a session holds a slot, no step but its own release or its process's death touches the slot or the session,
   a removal that does not spare it aside.
   */
  lemma HeldSlotSurvives(s: System, e: Event, max: nat, t: System, id: nat)
    requires Inv(s, max) && Spares(s, e) && Next(s, e, max) == Some(t)
    requires Holds(s, id) && e != Die(s.sessions[id].pid)
    requires (e.ReleaseRead? || e.ReleaseRemove? || e.ReleaseFails?) ==> e.id != id
    ensures id in t.sessions && t.sessions[id] == s.sessions[id]
    ensures var i := s.sessions[id].phase.slot;
            i in s.slots && i in t.slots && t.slots[i] == s.slots[i]
  {
    hide WellNamed, Stale, OwnerText, Spares;
    assert OwnsSlot(s, id, max);
    if !(e.Boot? || e.Die? || e.Clock? || e.Start?) {
      assert e.id != id;
      ClaimSurvivesStep(s, e, max, t, id);
    }
  }

  // ---- The invariant over every run ----

  predicate Initial(s: System) {
    s.sessions == map[]
  }

  lemma StepKeepsInv(s: System, e: Event, max: nat, t: System)
    requires Inv(s, max) && Spares(s, e)
    requires !e.Boot? && !e.Die? && !e.Clock? && !e.Start?
    requires e.id in s.sessions && SessionStep(s, e, max) == Some(t)
    ensures Inv(t, max)
  {
    hide WellNamed, Stale, OwnerText, SessionStep, InRange, Spares;
    StepIsLocal(s, e, max, t);
    StepStaysInRange(s, e, max, t);
    assert Holds(s, e.id) ==> OwnsSlot(s, e.id, max);
    assert IsOpen(s, e.id) ==> OpenInPlace(s, e.id);
    StepOwnsSlot(s, e, max, t);
    forall id | Holds(t, id)
      ensures OwnsSlot(t, id, max)
    {
      if id != e.id {
        assert OwnsSlot(s, id, max);
        ClaimSurvivesStep(s, e, max, t, id);
      }
    }
    forall id | IsOpen(t, id)
      ensures OpenInPlace(t, id)
    {
      if id != e.id {
        assert OpenInPlace(s, id);
        ClaimSurvivesStep(s, e, max, t, id);
      }
    }
    forall id, k | Holds(t, id) && Holds(t, k) && t.sessions[id].phase.slot == t.sessions[k].phase.slot
      ensures id == k
    {
      if id != k && k == e.id {
        ClaimSurvivesStep(s, e, max, t, id);
      } else if id != k && id == e.id {
        ClaimSurvivesStep(s, e, max, t, k);
      }
    }
  }

  /** A session that holds a slot after its step has its own text there, and one that has a file open, that file. */
  lemma StepOwnsSlot(s: System, e: Event, max: nat, t: System)
    requires !e.Boot? && !e.Die? && !e.Clock? && !e.Start?
    requires e.id in s.sessions && InRange(s.sessions[e.id], max) && SessionStep(s, e, max) == Some(t)
    requires Holds(s, e.id) ==> OwnsSlot(s, e.id, max)
    requires IsOpen(s, e.id) ==> OpenInPlace(s, e.id)
    ensures Holds(t, e.id) ==> OwnsSlot(t, e.id, max)
    ensures IsOpen(t, e.id) ==> OpenInPlace(t, e.id)
  {
    hide SessionStep, InRange;
    if e.WriteOwner? || e.OpenOwner? || e.FillOwner? {
      WriteOwnsSlot(s, e, max, t);
    } else {
      OtherStepOwnsNothingNew(s, e, max, t);
    }
  }

  lemma WriteOwnsSlot(s: System, e: Event, max: nat, t: System)
    requires e.WriteOwner? || e.OpenOwner? || e.FillOwner?
    requires e.id in s.sessions && InRange(s.sessions[e.id], max) && SessionStep(s, e, max) == Some(t)
    requires IsOpen(s, e.id) ==> OpenInPlace(s, e.id)
    ensures Holds(t, e.id) ==> OwnsSlot(t, e.id, max)
    ensures IsOpen(t, e.id) ==> OpenInPlace(t, e.id)
  {
    hide Checked, AfterRemoval;
  }

  lemma OtherStepOwnsNothingNew(s: System, e: Event, max: nat, t: System)
    requires !e.Boot? && !e.Die? && !e.Clock? && !e.Start? && !e.WriteOwner? && !e.OpenOwner? && !e.FillOwner?
    requires e.id in s.sessions && SessionStep(s, e, max) == Some(t)
    ensures !IsOpen(t, e.id)
    ensures Holds(t, e.id) ==>
              Holds(s, e.id) && t.slots == s.slots && t.sessions[e.id] == s.sessions[e.id].(phase := Removing(s.sessions[e.id].phase.slot))
  {
    hide Stale, ReadOwner, FreshSlot, OwnedSlot;
  }

  lemma StepStaysInRange(s: System, e: Event, max: nat, t: System)
    requires !e.Boot? && !e.Die? && !e.Clock? && !e.Start?
    requires e.id in s.sessions && SessionStep(s, e, max) == Some(t)
    requires InRange(s.sessions[e.id], max)
    ensures InRange(t.sessions[e.id], max)
  {
    hide Stale, OwnerText, ReadOwner;
  }

  lemma StartKeepsInv(s: System, e: Event, max: nat, t: System)
    requires Inv(s, max) && e.Start? && Next(s, e, max) == Some(t)
    ensures Inv(t, max)
  {
    hide WellNamed, Stale, OwnerText;
    OwnerTextWellNamed(e.pid, e.title);
    assert t.sessions[e.id].mine == OwnerText(e.pid, e.title);
    forall id | Holds(t, id)
      ensures OwnsSlot(t, id, max)
    {
      assert Holds(s, id) && OwnsSlot(s, id, max);
    }
    forall id | IsOpen(t, id)
      ensures OpenInPlace(t, id)
    {
      assert IsOpen(s, id) && OpenInPlace(s, id);
    }
  }

  lemma NextKeepsInv(s: System, e: Event, max: nat, t: System)
    requires Inv(s, max) && Spares(s, e) && Next(s, e, max) == Some(t)
    ensures Inv(t, max)
  {
    hide WellNamed, Stale, OwnerText, Spares;
    if e.Start? {
      StartKeepsInv(s, e, max, t);
    } else if e.Boot? || e.Die? || e.Clock? {
      forall id | Holds(t, id)
        ensures OwnsSlot(t, id, max)
      {
        assert Holds(s, id) && OwnsSlot(s, id, max);
      }
      forall id | IsOpen(t, id)
        ensures OpenInPlace(t, id)
      {
        assert IsOpen(s, id) && OpenInPlace(s, id);
      }
    } else {
      StepKeepsInv(s, e, max, t);
    }
  }

  lemma {:induction false} RunKeepsInv(s: System, events: seq<Event>, max: nat, t: System)
    requires Inv(s, max) && AllSpare(s, events, max) && Run(s, events, max) == Some(t)
    ensures Inv(t, max)
    decreases |events|
  {
    hide Inv, Next, Spares;
    if events != [] {
      var u := Next(s, events[0], max).value;
      NextKeepsInv(s, events[0], max, u);
      RunKeepsInv(u, events[1..], max, t);
    }
  }

  // ---- At most `max` holders ----

  lemma {:induction false} InjectiveImageSize(ids: set<nat>, slotOf: map<nat, nat>, max: nat)
    requires forall id :: id in ids ==> id in slotOf && 1 <= slotOf[id] <= max
    requires forall id, k :: id in ids && k in ids && slotOf[id] == slotOf[k] ==> id == k
    ensures |ids| <= max
  {
    if max == 0 {
      if id :| id in ids {
        assert false;
      }
    } else {
      var rest := set id | id in ids && slotOf[id] < max;
      if top :| top in ids && slotOf[top] == max {
        assert ids == rest + {top};
      } else {
        assert ids == rest;
      }
      InjectiveImageSize(rest, slotOf, max - 1);
    }
  }

  /** No two sessions hold one slot, and no more than `max` sessions hold any. */
  ghost predicate Exclusive(s: System, max: nat) {
    OneHolderEach(s) && |Holders(s)| <= max
  }

  lemma InvIsExclusive(s: System, max: nat)
    requires Inv(s, max)
    ensures Exclusive(s, max)
  {
    var ids := Holders(s);
    var slotOf := map id | id in ids :: s.sessions[id].phase.slot;
    forall id | id in ids
      ensures 1 <= slotOf[id] <= max
    {
      assert Holds(s, id) && OwnsSlot(s, id, max);
    }
    InjectiveImageSize(ids, slotOf, max);
  }

  /**
   Mutual exclusion, step by step. From any slot directory, stale or garbled entries included, after any run of any
   number of sessions - with equal or different labels, suspended anywhere, processes dying and pids reused, the clock
   moving either way - no two sessions hold one slot and at most `max` sessions hold one, as long as every removal
   spares the slots in other sessions' hands at that moment.
   */
  lemma ExclusionWhileSpared(s: System, events: seq<Event>, max: nat, t: System)
    requires Initial(s) && AllSpare(s, events, max) && Run(s, events, max) == Some(t)
    ensures Exclusive(t, max)
  {
    RunKeepsInv(s, events, max, t);
    InvIsExclusive(t, max);
  }

  /** No session is between the halves of a reclaim or of an owner write. */
  predicate NoneHalfway(s: System) {
    forall id :: id in s.sessions ==> !s.sessions[id].phase.Condemned? && !s.sessions[id].phase.Opened?
  }

  lemma StepsStayWhole(s: System, e: Event, max: nat, t: System)
    requires Inv(s, max) && NoneHalfway(s) && !e.Check? && !e.OpenOwner? && Next(s, e, max) == Some(t)
    ensures Spares(s, e) && NoneHalfway(t)
  {
    hide Stale, OwnerText, ReadOwner, WellNamed, Inv;
    if Removes(s, e).Some? {
      forall k
        ensures !InHand(s, k, Removes(s, e).value)
      {
        if Holds(s, k) {
          HeldSlotIsNotStale(s, k, max);
        }
      }
    }
    if !(e.Boot? || e.Die? || e.Clock? || e.Start?) {
      StepIsLocal(s, e, max, t);
      StepEndsWhole(s, e, max, t);
    }
  }

  lemma StepEndsWhole(s: System, e: Event, max: nat, t: System)
    requires NoneHalfway(s) && !e.Check? && !e.OpenOwner?
    requires !e.Boot? && !e.Die? && !e.Clock? && !e.Start?
    requires e.id in s.sessions && SessionStep(s, e, max) == Some(t)
    ensures !t.sessions[e.id].phase.Condemned? && !t.sessions[e.id].phase.Opened?
  {
    hide Stale, OwnerText, ReadOwner, FreshSlot, OwnedSlot;
  }

  lemma {:induction false} OneStepSpares(s: System, events: seq<Event>, max: nat)
    requires Inv(s, max) && NoneHalfway(s) && OneStep(events) && Run(s, events, max).Some?
    ensures AllSpare(s, events, max)
    decreases |events|
  {
    hide Next, Spares, Inv;
    if events != [] {
      var u := Next(s, events[0], max).value;
      StepsStayWhole(s, events[0], max, u);
      NextKeepsInv(s, events[0], max, u);
      OneStepSpares(u, events[1..], max);
    }
  }

  /** Mutual exclusion in every run whose reclaims and owner writes are each one step. */
  lemma MutualExclusion(s: System, events: seq<Event>, max: nat, t: System)
    requires Initial(s) && OneStep(events) && Run(s, events, max) == Some(t)
    ensures Exclusive(t, max)
  {
    OneStepSpares(s, events, max);
    ExclusionWhileSpared(s, events, max, t);
  }

  // ---- Giving a slot back ----

  lemma OwnTextIsReleased(s: System, id: nat, max: nat)
    requires id in s.sessions && s.sessions[id].phase.Holding? && s.sessions[id].phase.slot in s.slots
    requires ReadOwner(s.slots[s.sessions[id].phase.slot]) == Some(s.sessions[id].mine)
    ensures Next(s, ReleaseRead(id), max) == Some(Move(s, id, Removing(s.sessions[id].phase.slot)))
  {
    hide ReadOwner;
  }

  lemma RemovalFreesSlot(s: System, id: nat, max: nat)
    requires id in s.sessions && s.sessions[id].phase.Removing?
    ensures Next(s, ReleaseRemove(id), max) == Some(Move(s, id, Ended).(slots := s.slots - {s.sessions[id].phase.slot}))
  {
  }

  /** A session that holds a slot and releases it ends, and its slot is gone; nothing else changes. */
  lemma ReleaseFreesSlot(s: System, id: nat, max: nat) returns (t: System)
    requires Inv(s, max) && id in s.sessions && s.sessions[id].phase.Holding?
    ensures Run(s, [ReleaseRead(id), ReleaseRemove(id)], max) == Some(t)
    ensures var i := s.sessions[id].phase.slot;
            && i in s.slots && t.slots == s.slots - {i}
            && t.sessions == s.sessions[id := s.sessions[id].(phase := Ended)]
            && t.running == s.running && t.now == s.now
  {
    hide Inv, WellNamed, Stale, ReadOwner, Next, OneHolderEach;
    var i := s.sessions[id].phase.slot;
    HeldSlotIsNotStale(s, id, max);
    var u := Move(s, id, Removing(i));
    OwnTextIsReleased(s, id, max);
    RemovalFreesSlot(u, id, max);
    t := Move(u, id, Ended).(slots := s.slots - {i});
    assert t.sessions == s.sessions[id := s.sessions[id].(phase := Ended)];
    TwoSteps(s, ReleaseRead(id), ReleaseRemove(id), max, u, t);
  }

  lemma TwoSteps(s: System, e: Event, f: Event, max: nat, u: System, t: System)
    requires Next(s, e, max) == Some(u) && Next(u, f, max) == Some(t)
    ensures Run(s, [e, f], max) == Some(t)
  {
    hide Next;
    assert [e, f][1..] == [f] && [f][1..] == [];
    assert Run(u, [f], max) == Some(t);
  }

  /** A released slot is free: a session that scans it next makes it and holds it. */
  lemma ReleasedSlotIsTaken(s: System, id: nat, k: nat, max: nat) returns (t: System)
    requires Inv(s, max) && id in s.sessions && s.sessions[id].phase.Holding?
    requires k in s.sessions && s.sessions[k].phase == Scanning(s.sessions[id].phase.slot)
    ensures Run(s, [ReleaseRead(id), ReleaseRemove(id), Mkdir(k), WriteOwner(k)], max) == Some(t)
    ensures Holds(t, k) && t.sessions[k].phase.slot == s.sessions[id].phase.slot && !Holds(t, id)
  {
    hide Inv, Next, Run, OneHolderEach, WellNamed, OwnsSlot, Stale, ReadOwner;
    HeldSlotIsNotStale(s, id, max);
    HolderInRange(s, id, max);
    var freed := ReleaseFreesSlot(s, id, max);
    assert k != id && freed.sessions[k] == s.sessions[k];
    t := FreeSlotIsTaken(freed, k, s.sessions[id].phase.slot, max);
    RunOfBoth(s, [ReleaseRead(id), ReleaseRemove(id)], [Mkdir(k), WriteOwner(k)], max, freed);
    assert [ReleaseRead(id), ReleaseRemove(id)] + [Mkdir(k), WriteOwner(k)] == [ReleaseRead(id), ReleaseRemove(id), Mkdir(k), WriteOwner(k)];
  }

  lemma HolderInRange(s: System, id: nat, max: nat)
    requires Holds(s, id) && OwnsSlot(s, id, max)
    ensures 1 <= s.sessions[id].phase.slot <= max
  {
  }

  lemma {:induction false} RunOfBoth(s: System, a: seq<Event>, b: seq<Event>, max: nat, t: System)
    requires Run(s, a, max) == Some(t)
    ensures Run(s, a + b, max) == Run(t, b, max)
    decreases |a|
  {
    hide Next;
    if a == [] {
      assert a + b == b;
    } else {
      assert (a + b)[1..] == a[1..] + b;
      RunOfBoth(Next(s, a[0], max).value, a[1..], b, max, t);
    }
  }

  /** A release that finds another text in its slot, or no slot, leaves every slot in place. */
  lemma ReleaseSparesOthers(s: System, id: nat, max: nat, t: System)
    requires id in s.sessions && s.sessions[id].phase.Holding? && Next(s, ReleaseRead(id), max) == Some(t)
    requires var i := s.sessions[id].phase.slot;
             i in s.slots ==> ReadOwner(s.slots[i]) != Some(s.sessions[id].mine)
    ensures t.slots == s.slots && t.sessions == s.sessions[id := s.sessions[id].(phase := Ended)]
    ensures Next(t, ReleaseRemove(id), max).None?
  {
    hide ReadOwner;
  }

  /** What is reclaimed, slot by slot: a dead `pid=` owner at any age, or no owner text for more than ten seconds by a readable date. */
  lemma StaleIsExact(slot: Slot, running: set<nat>, now: int)
    ensures slot.owner.Unreadable? ==> !Stale(slot, running, now)
    ensures slot.owner.Missing? || slot.owner.Opening? ==>
              (Stale(slot, running, now) <==> slot.changed.Some? && now - slot.changed.value > 10_000)
    ensures slot.owner.Written? && Trim(slot.owner.text) == "" ==>
              (Stale(slot, running, now) <==> slot.changed.Some? && now - slot.changed.value > 10_000)
    ensures slot.owner.Written? && Trim(slot.owner.text) != "" ==>
              (Stale(slot, running, now) <==>
               OwnerPid(Some(Trim(slot.owner.text))).Some? && OwnerPid(Some(Trim(slot.owner.text))).value !in running)
  {
    hide Trim, OwnerPid;
    NoTextNamesNone();
  }

  lemma NoTextNamesNone()
    ensures OwnerPid(Some("")).None? && OwnerPid(None).None?
  {
  }

  /** A text names a process exactly when it is `pid=` and digits up to its end or a space. */
  lemma OwnerPidIsExact(text: string, pid: nat)
    ensures OwnerPid(Some(text)) == Some(pid) <==>
            exists n :: 4 < n <= |text| && text[..4] == "pid=" && AllDigits(text[4..n]) && Value(text[4..n]) == pid &&
                        (n == |text| || text[n] == ' ')
  {
    hide Value;
    if OwnerPid(Some(text)) == Some(pid) {
      var digits := DigitRun(text[4..]);
      assert text[4..4 + |digits|] == digits;
      assert 4 + |digits| < |text| ==> text[4 + |digits|] == text[4..][|digits|];
    }
    if n :| 4 < n <= |text| && text[..4] == "pid=" && AllDigits(text[4..n]) && Value(text[4..n]) == pid && (n == |text| || text[n] == ' ') {
      PidIsRead(text, n);
    }
  }

  lemma PidIsRead(text: string, n: nat)
    requires 4 < n <= |text| && text[..4] == "pid=" && AllDigits(text[4..n]) && (n == |text| || text[n] == ' ')
    ensures OwnerPid(Some(text)) == Some(Value(text[4..n]))
  {
    hide OwnerPid, Value;
    assert text == "pid=" + (text[4..n] + text[n..]);
    OwnerPidOf(text[4..n], text[n..]);
  }

  // ---- What one step of reclaim assumes ----

  /** `Reclaim` is exactly a check followed at once by its removal. */
  lemma ReclaimIsCheckThenRemove(s: System, id: nat, removal: Removal, max: nat)
    requires id in s.sessions && s.sessions[id].phase.Occupied?
    ensures var checked := Next(s, Check(id), max).value;
            Next(s, Reclaim(id, removal), max) ==
            if checked.sessions[id].phase.Condemned? then Next(checked, Remove(id, removal), max) else Some(checked)
  {
    hide Stale;
  }

  /** `WriteOwner` is exactly an exclusive creation followed at once by its writing, and takes a slot that has no owner file. */
  lemma WriteIsOpenThenFill(s: System, id: nat, max: nat)
    requires id in s.sessions && s.sessions[id].phase.Made?
    ensures var created := Next(s, OpenOwner(id), max).value;
            Next(s, WriteOwner(id), max) ==
            if created.sessions[id].phase.Opened? then Next(created, FillOwner(id), max) else Some(created)
    ensures var i := s.sessions[id].phase.slot;
            i in s.slots && s.slots[i].owner.Missing? ==>
              Next(s, WriteOwner(id), max) == Some(Move(s, id, Holding(i)).(slots := s.slots[i := OwnedSlot(s.sessions[id].mine, s.now)]))
  {
    var i := s.sessions[id].phase.slot;
    var created := AfterOpening(s, id);
    if created.sessions[id].phase.Opened? {
      assert AfterFilling(created, id).sessions == Move(s, id, Holding(i)).sessions;
      assert AfterFilling(created, id).slots == s.slots[i := OwnedSlot(s.sessions[id].mine, s.now)];
    }
  }

  lemma {:induction false} RunSnoc(s: System, events: seq<Event>, e: Event, max: nat, t: System)
    requires Run(s, events, max) == Some(t)
    ensures Run(s, events + [e], max) == Next(t, e, max)
    decreases |events|
  {
    hide Next;
    if events == [] {
      assert (events + [e])[1..] == [];
    } else {
      assert (events + [e])[1..] == events[1..] + [e];
      RunSnoc(Next(s, events[0], max).value, events[1..], e, max, t);
    }
  }

  // ---- When a removal is safe ----

  /** A run that goes on with two holders of one slot. */
  ghost predicate LosesExclusion(s: System, events: seq<Event>, max: nat) {
    AllSpare(s, events, max) && Run(s, events, max).Some? && !OneHolderEach(Run(s, events, max).value)
  }

  /** A free slot is made and taken in two steps. */
  lemma FreeSlotIsTaken(t: System, id: nat, i: nat, max: nat) returns (u: System)
    requires id in t.sessions && t.sessions[id].phase == Scanning(i) && i <= max && i !in t.slots
    ensures Run(t, [Mkdir(id), WriteOwner(id)], max) == Some(u)
    ensures u.sessions == t.sessions[id := t.sessions[id].(phase := Holding(i))]
    ensures u.slots == t.slots[i := Slot(Written(t.sessions[id].mine + "\n"), Some(t.now))]
    ensures u.running == t.running && u.now == t.now
  {
    var made := Move(t, id, Made(i)).(slots := t.slots[i := FreshSlot(t.now)]);
    assert Next(t, Mkdir(id), max) == Some(made);
    WriteIsOpenThenFill(made, id, max);
    u := Move(made, id, Holding(i)).(slots := made.slots[i := OwnedSlot(t.sessions[id].mine, t.now)]);
    assert u.sessions == t.sessions[id := t.sessions[id].(phase := Holding(i))];
    assert u.slots == t.slots[i := Slot(Written(t.sessions[id].mine + "\n"), Some(t.now))];
    hide Next, OwnedSlot, FreshSlot;
    assert [Mkdir(id), WriteOwner(id)][1..] == [WriteOwner(id)] && [WriteOwner(id)][1..] == [];
    assert Run(made, [WriteOwner(id)], max) == Some(u);
  }

  /** A slot that was taken away under a session is made and taken again by the remover, and the other holds it too. */
  lemma RemoverRetakes(t: System, id: nat, k: nat, i: nat, max: nat) returns (more: seq<Event>)
    requires id in t.sessions && t.sessions[id].phase == Scanning(i) && i <= max && i !in t.slots
    requires InHand(t, k, i)
    ensures LosesExclusion(t, more, max)
  {
    hide AllSpare, Stale, Run;
    more := [Mkdir(id), WriteOwner(id)];
    var u := FreeSlotIsTaken(t, id, i, max);
    if IsOpen(u, k) {
      RunSnoc(t, more, FillOwner(k), max, u);
      OpenWriterHolds(u, k, id, i, max);
      more, u := more + [FillOwner(k)], AfterFilling(u, k);
    }
    assert Holds(u, k) && Holds(u, id) && u.sessions[k].phase.slot == u.sessions[id].phase.slot;
    NothingRemovedSpares(t, more, max);
  }

  /** A session with an owner file open comes to hold its slot, whoever holds it by then. */
  lemma OpenWriterHolds(u: System, k: nat, id: nat, i: nat, max: nat)
    requires IsOpen(u, k) && u.sessions[k].phase.slot == i && InHand(u, id, i) && k != id
    ensures Next(u, FillOwner(k), max) == Some(AfterFilling(u, k))
    ensures Holds(AfterFilling(u, k), k) && InHand(AfterFilling(u, k), id, i) && AfterFilling(u, k).sessions[k].phase.slot == i
    ensures Holds(u, id) ==> Holds(AfterFilling(u, k), id)
  {
  }

  lemma {:induction false} NothingRemovedSpares(s: System, events: seq<Event>, max: nat)
    requires forall j :: 0 <= j < |events| ==> !events[j].Remove? && !events[j].Reclaim?
    ensures AllSpare(s, events, max)
    decreases |events|
  {
    hide Next;
    if events != [] && Next(s, events[0], max).Some? {
      NothingRemovedSpares(Next(s, events[0], max).value, events[1..], max);
    }
  }

  /** Where a removal that takes the slot away leaves its session, the slot and every other session. */
  lemma AfterTakingAway(s: System, e: Event, max: nat, t: System)
    requires Removes(s, e).Some? && Next(s, e, max) == Some(t)
    ensures e.Remove? || e.Reclaim?
    ensures var i := Removes(s, e).value;
            && e.id in t.sessions && t.sessions[e.id].phase == Scanning(i) && i == s.sessions[e.id].phase.slot
            && t.slots == s.slots - {i}
            && forall k :: InHand(s, k, i) ==> InHand(t, k, i)
  {
    hide Stale;
  }

  /** Every sparing continuation keeps one holder for each slot and at most `max` holders. */
  ghost predicate SafeFromHere(t: System, max: nat) {
    forall more, u :: AllSpare(t, more, max) && Run(t, more, max) == Some(u) ==> Exclusive(u, max)
  }

  lemma SparingStepIsSafe(s: System, e: Event, max: nat, t: System)
    requires Inv(s, max) && Next(s, e, max) == Some(t) && Spares(s, e)
    ensures SafeFromHere(t, max)
  {
    hide AllSpare, Run, Inv, Next, Spares, Exclusive;
    NextKeepsInv(s, e, max, t);
    forall more, u | AllSpare(t, more, max) && Run(t, more, max) == Some(u)
      ensures Exclusive(u, max)
    {
      RunKeepsInv(t, more, max, u);
      InvIsExclusive(u, max);
    }
  }

  lemma UnsparingStepIsUnsafe(s: System, e: Event, max: nat, t: System)
    requires Inv(s, max) && Next(s, e, max) == Some(t) && !Spares(s, e)
    ensures !SafeFromHere(t, max)
  {
    hide AllSpare, Run, Inv, Next, Removes, InHand;
    var i := Removes(s, e).value;
    var k :| InHand(s, k, i);
    AfterTakingAway(s, e, max, t);
    RemoverInRange(s, e, max);
    var more := RemoverRetakes(t, e.id, k, i, max);
    assert !Exclusive(Run(t, more, max).value, max);
  }

  /**
   A removal is safe exactly when it spares: from a state that keeps the invariant, every sparing continuation after a
   step has one holder for each slot and at most `max` holders, if and only if the step took away no slot that a session
   held or had an owner file open for.
   */
  lemma StepIsSafeWhenItSpares(s: System, e: Event, max: nat, t: System)
    requires Inv(s, max) && Next(s, e, max) == Some(t)
    ensures Spares(s, e) <==> SafeFromHere(t, max)
  {
    hide SafeFromHere, Spares, Inv, Next;
    if Spares(s, e) {
      SparingStepIsSafe(s, e, max, t);
    } else {
      UnsparingStepIsUnsafe(s, e, max, t);
    }
  }

  lemma RemoverInRange(s: System, e: Event, max: nat)
    requires Inv(s, max) && Removes(s, e).Some?
    ensures Removes(s, e).value <= max
  {
    assert InRange(s.sessions[e.id], max);
  }

  lemma StartRuns(s: System, events: seq<Event>, max: nat, t: System, id: nat, pid: nat) returns (more: seq<Event>, u: System)
    requires Run(s, events, max) == Some(t)
    requires id !in t.sessions && pid in t.running
    ensures Run(s, more, max) == Some(u)
    ensures u == t.(sessions := t.sessions[id := Session(pid, OwnerText(pid, ""), 0, Scanning(1))])
  {
    hide OwnerText;
    more := events + [Start(id, pid, "", 0)];
    u := t.(sessions := t.sessions[id := Session(pid, OwnerText(pid, ""), 0, Scanning(1))]);
    RunSnoc(s, events, Start(id, pid, "", 0), max, t);
  }

  lemma ScannerCondemns(s: System, events: seq<Event>, max: nat, t: System, id: nat) returns (more: seq<Event>, u: System)
    requires Run(s, events, max) == Some(t)
    requires id in t.sessions && t.sessions[id].phase == Scanning(1) && max >= 1
    requires 1 in t.slots && Stale(t.slots[1], t.running, t.now)
    ensures Run(s, more, max) == Some(u)
    ensures u == Move(t, id, Condemned(1))
  {
    hide Stale;
    RunSnoc(s, events, Mkdir(id), max, t);
    more, u := events + [Mkdir(id)], Move(t, id, Occupied(1));
    RunSnoc(s, more, Check(id), max, u);
    more, u := more + [Check(id)], Move(u, id, Condemned(1));
    assert u.sessions == Move(t, id, Condemned(1)).sessions;
  }

  /** A condemning session that is alone for three steps removes the slot, makes it again and holds it. */
  lemma CondemnerTakesSlot(s: System, events: seq<Event>, max: nat, t: System, id: nat) returns (more: seq<Event>, u: System)
    requires Run(s, events, max) == Some(t)
    requires id in t.sessions && t.sessions[id].phase == Condemned(1) && max >= 1
    ensures Run(s, more, max) == Some(u)
    ensures u.sessions == t.sessions[id := t.sessions[id].(phase := Holding(1))]
  {
    hide Stale;
    more, u := events + [Remove(id, Removed)], AfterRemoval(t, id, Removed);
    RunSnoc(s, events, Remove(id, Removed), max, t);
    var made := Move(u, id, Made(1)).(slots := u.slots[1 := FreshSlot(u.now)]);
    RunSnoc(s, more, Mkdir(id), max, u);
    more, u := more + [Mkdir(id)], made;
    RunSnoc(s, more, WriteOwner(id), max, u);
    WriteIsOpenThenFill(u, id, max);
    more, u := more + [WriteOwner(id)],
      Move(u, id, Holding(1)).(slots := u.slots[1 := OwnedSlot(u.sessions[id].mine, u.now)]);
  }

  /**
   The one-step assumption is needed: when the check and the removal come apart, a run of two sessions over one
   slot left by a dead process ends with both holding it. (The harness's notes record this limit.)
   */
  lemma SplitReclaimLosesExclusion() returns (s: System, events: seq<Event>, t: System)
    ensures Initial(s) && Run(s, events, 1) == Some(t)
    ensures Holds(t, 2) && Holds(t, 3) && !Exclusive(t, 1)
  {
    hide OwnerText, Stale;
    var left := OwnedSlot(OwnerText(1, ""), 0);
    DeadOwnerIsStale(1, {2, 3}, 0);
    s, events := System(map[1 := left], {2, 3}, map[], 0), [];
    events, t := StartRuns(s, events, 1, s, 2, 2);
    events, t := StartRuns(s, events, 1, t, 3, 3);
    events, t := ScannerCondemns(s, events, 1, t, 2);
    events, t := ScannerCondemns(s, events, 1, t, 3);
    events, t := CondemnerTakesSlot(s, events, 1, t, 2);
    events, t := CondemnerTakesSlot(s, events, 1, t, 3);
  }

  /** A session finds the first slot free, makes it and creates its owner file, and is suspended there for 20 seconds. */
  lemma WriterIsSuspended(s: System, events: seq<Event>, t: System, id: nat) returns (more: seq<Event>, u: System)
    requires Run(s, events, 1) == Some(t)
    requires id in t.sessions && t.sessions[id].phase == Scanning(1) && 1 !in t.slots
    ensures Run(s, more, 1) == Some(u)
    ensures u.sessions == t.sessions[id := t.sessions[id].(phase := Opened(1))]
    ensures 1 in u.slots && u.slots[1].owner == Opening(id) && Stale(u.slots[1], u.running, u.now)
  {
    RunSnoc(s, events, Mkdir(id), 1, t);
    more, u := events + [Mkdir(id)], Move(t, id, Made(1)).(slots := t.slots[1 := FreshSlot(t.now)]);
    RunSnoc(s, more, OpenOwner(id), 1, u);
    more, u := more + [OpenOwner(id)], AfterOpening(u, id);
    RunSnoc(s, more, Clock(t.now + 20_000), 1, u);
    more, u := more + [Clock(t.now + 20_000)], u.(now := t.now + 20_000);
  }

  /** A session that finds the first slot stale reclaims it in one step and holds it. */
  lemma ReclaimerTakesSlot(s: System, events: seq<Event>, t: System, id: nat) returns (more: seq<Event>, u: System)
    requires Run(s, events, 1) == Some(t)
    requires id in t.sessions && t.sessions[id].phase == Scanning(1)
    requires 1 in t.slots && Stale(t.slots[1], t.running, t.now)
    ensures Run(s, more, 1) == Some(u)
    ensures u.sessions == t.sessions[id := t.sessions[id].(phase := Holding(1))]
  {
    hide Stale;
    RunSnoc(s, events, Mkdir(id), 1, t);
    more, u := events + [Mkdir(id)], Move(t, id, Occupied(1));
    RunSnoc(s, more, Reclaim(id, Removed), 1, u);
    more, u := more + [Reclaim(id, Removed)], Move(u, id, Scanning(1)).(slots := u.slots - {1});
    assert Checked(Move(t, id, Occupied(1)), id).sessions[id].phase == Condemned(1);
    assert AfterRemoval(Checked(Move(t, id, Occupied(1)), id), id, Removed).sessions == u.sessions;
    RunSnoc(s, more, Mkdir(id), 1, u);
    more, u := more + [Mkdir(id)], Move(u, id, Made(1)).(slots := u.slots[1 := FreshSlot(u.now)]);
    RunSnoc(s, more, WriteOwner(id), 1, u);
    WriteIsOpenThenFill(u, id, 1);
    more, u := more + [WriteOwner(id)], Move(u, id, Holding(1)).(slots := u.slots[1 := OwnedSlot(u.sessions[id].mine, u.now)]);
    assert u.sessions == t.sessions[id := t.sessions[id].(phase := Holding(1))];
  }

  /**
   Owner writes must be one step too: a session suspended for more than the orphan age between creating its owner file
   and writing it is reclaimed by another, and both come to hold the slot.
   */
  lemma SplitWriteLosesExclusion() returns (s: System, events: seq<Event>, t: System)
    ensures Initial(s) && Run(s, events, 1) == Some(t)
    ensures Holds(t, 2) && Holds(t, 3) && !Exclusive(t, 1)
  {
    hide OwnerText, Stale, Checked, AfterRemoval, AfterOpening, FreshSlot;
    s, events := System(map[], {2, 3}, map[], 0), [];
    events, t := StartRuns(s, events, 1, s, 2, 2);
    events, t := StartRuns(s, events, 1, t, 3, 3);
    events, t := WriterIsSuspended(s, events, t, 2);
    events, t := ReclaimerTakesSlot(s, events, t, 3);
    OpenWriterHolds(t, 2, 3, 1, 1);
    RunSnoc(s, events, FillOwner(2), 1, t);
    hide Next, AfterFilling, Run;
    events, t := events + [FillOwner(2)], AfterFilling(t, 2);
    assert t.sessions[2].phase.slot == t.sessions[3].phase.slot;
  }

  /** The slot of a dead process is stale, whatever its label and age. */
  lemma DeadOwnerIsStale(pid: nat, running: set<nat>, now: int)
    requires pid !in running
    ensures forall title, changed :: Stale(Slot(Written(OwnerText(pid, title) + "\n"), changed), running, now)
  {
    forall title, changed
      ensures Stale(Slot(Written(OwnerText(pid, title) + "\n"), changed), running, now)
    {
      hide OwnerText;
      OwnerTextNamesItsProcess(pid, title);
    }
  }
}

/**
 The Docker slots of hetzner/edge/dockerHarness.ts: directories `slot-1` to `slot-max` that any number of
 sessions, in any number of processes, take with `mkdir` and give back. Sessions interleave one file-system
 call at a time; a process may die at any moment and the wall clock may be set to anything.
 */
module Slots {
  import opened Common
  import opened Text

  const ORPHAN_SLOT_AGE_MS := 10_000
  const FUTURE_SLACK_MS := 1_000

  // ---- Owner texts ----

  /** What a session writes to its owner file, before the newline. */
  function OwnerText(pid: nat, title: string): string {
    Trim("pid=" + Dec(pid) + " " + title)
  }

  function DigitRun(s: string): (r: string)
    ensures AllDigits(r) && r <= s
    ensures |r| < |s| ==> !IsDigit(s[|r|])
  {
    if s == "" || !IsDigit(s[0]) then "" else [s[0]] + DigitRun(s[1..])
  }

  /** The pid an owner text names: `pid=` and digits, then a space or the end. */
  function OwnerPid(owner: Option<string>): Option<nat> {
    if owner.None? || !("pid=" <= owner.value) then None
    else
      var rest := owner.value[4..];
      var digits := DigitRun(rest);
      if digits != "" && (|digits| == |rest| || rest[|digits|] == ' ') then Some(Value(digits)) else None
  }

  lemma DigitRunOf(digits: string, rest: string)
    requires AllDigits(digits)
    requires rest == "" || !IsDigit(rest[0])
    ensures DigitRun(digits + rest) == digits
  {
    var s := digits + rest;
    assert forall i :: 0 <= i < |digits| ==> s[i] == digits[i];
    assert rest != "" ==> s[|digits|] == rest[0];
  }

  lemma OwnerPidOf(digits: string, tail: string)
    requires digits != "" && AllDigits(digits)
    requires tail == "" || tail[0] == ' '
    ensures OwnerPid(Some("pid=" + (digits + tail))) == Some(Value(digits))
  {
    var owner := "pid=" + (digits + tail);
    assert owner[..4] == "pid=" && owner[4..] == digits + tail;
    DigitRunOf(digits, tail);
  }

  /** Trimming an owner line cuts nothing before the end of the pid. */
  lemma OwnerTextShape(pid: nat, title: string) returns (tail: string)
    ensures OwnerText(pid, title) == "pid=" + (Dec(pid) + tail)
    ensures tail == "" || tail[0] == ' '
  {
    DecRoundTrip(pid);
    var head := "pid=" + Dec(pid);
    var rest := " " + title;
    assert head[|head| - 1] == Dec(pid)[|Dec(pid)| - 1];
    var n := TrimKeepsHead(head, rest);
    assert head + rest == "pid=" + Dec(pid) + " " + title;
    tail := rest[..n];
    assert head + tail == "pid=" + (Dec(pid) + tail);
  }

  /** A session's owner text is read back unchanged and names the session's own process. */
  lemma OwnerTextNamesItsProcess(pid: nat, title: string)
    ensures OwnerText(pid, title) != ""
    ensures Trim(OwnerText(pid, title) + "\n") == OwnerText(pid, title)
    ensures OwnerPid(Some(OwnerText(pid, title))) == Some(pid)
  {
    var tail := OwnerTextShape(pid, title);
    DecRoundTrip(pid);
    OwnerPidOf(Dec(pid), tail);
    TrimOfTrimmed(OwnerText(pid, title));
  }

  // ---- One slot directory ----

  /** `Opening` is an owner file that a session has created and not written yet. */
  datatype OwnerFile = Missing | Opening(session: nat) | Unreadable | Written(text: string)

  /** A slot directory: its owner file and its change time, when that can be read. */
  datatype Slot = Slot(owner: OwnerFile, changed: Option<int>)

  /** `Some("")` when there is no owner file or an empty one, `None` when it is there and cannot be read. */
  function ReadOwner(slot: Slot): Option<string> {
    match slot.owner
    case Missing => Some("")
    case Opening(_) => Some("")
    case Unreadable => None
    case Written(text) => Some(Trim(text))
  }

  function Age(slot: Slot, now: int): Option<nat> {
    if slot.changed.None? then None
    else
      var age := now - slot.changed.value;
      if age < -FUTURE_SLACK_MS then None else Some(if age < 0 then 0 else age)
  }

  /** A dead `pid=` owner, or no owner and older than the orphan age. */
  predicate Stale(slot: Slot, running: set<nat>, now: int) {
    var owner := ReadOwner(slot);
    var pid := OwnerPid(owner);
    var age := Age(slot, now);
    (pid.Some? && pid.value !in running) ||
    (owner == Some("") && age.Some? && age.value > ORPHAN_SLOT_AGE_MS)
  }

  function FreshSlot(now: int): Slot {
    Slot(Missing, Some(now))
  }

  function OwnedSlot(mine: string, now: int): Slot {
    Slot(Written(mine + "\n"), Some(now))
  }

  // ---- The protocol as a machine ----

  datatype Phase =
    | Scanning(slot: nat)   // about to try mkdir
    | Occupied(slot: nat)   // mkdir found the directory there
    | Condemned(slot: nat)  // found it stale, about to remove it
    | Made(slot: nat)       // mkdir succeeded, there is no owner file yet
    | Opened(slot: nat)     // created the owner file, about to write its text
    | Holding(slot: nat)
    | Removing(slot: nat)   // release read this session's own text, about to remove
    | Ended

  /** A `takeSlot` call: its process, its owner text, when it gives up, and where it is. */
  datatype Session = Session(pid: nat, mine: string, until: int, phase: Phase)

  datatype System = System(slots: map<nat, Slot>, running: set<nat>, sessions: map<nat, Session>, now: int)

  datatype Removal = Removed | LeftForNextPoll | Refused

  /**
   One step of the world. `Reclaim` is the stale check and the removal as one step; `Check` and `Remove` are its halves.
   `WriteOwner` is the exclusive write of the owner file as one step; `OpenOwner` and `FillOwner` are its halves.
   */
  datatype Event =
    | Boot(pid: nat)
    | Die(pid: nat)
    | Clock(time: int)
    | Start(id: nat, pid: nat, title: string, until: int)
    | Mkdir(id: nat)
    | MkdirFails(id: nat)
    | Reclaim(id: nat, removal: Removal)
    | Check(id: nat)
    | Remove(id: nat, removal: Removal)
    | WriteOwner(id: nat)
    | OpenOwner(id: nat)
    | FillOwner(id: nat)
    | WriteFails(id: nat)
    | EndPass(id: nat)
    | ReleaseRead(id: nat)
    | ReleaseRemove(id: nat)
    | ReleaseFails(id: nat)

  predicate Live(session: Session) {
    !session.phase.Ended?
  }

  function Move(s: System, id: nat, phase: Phase): System
    requires id in s.sessions
  {
    s.(sessions := s.sessions[id := s.sessions[id].(phase := phase)])
  }

  function Checked(s: System, id: nat): System
    requires id in s.sessions && s.sessions[id].phase.Occupied?
  {
    var i := s.sessions[id].phase.slot;
    if i in s.slots && Stale(s.slots[i], s.running, s.now) then Move(s, id, Condemned(i))
    else Move(s, id, Scanning(i + 1))
  }

  function AfterRemoval(s: System, id: nat, removal: Removal): System
    requires id in s.sessions && s.sessions[id].phase.Condemned?
  {
    var i := s.sessions[id].phase.slot;
    match removal
    case Removed => Move(s, id, Scanning(i)).(slots := s.slots - {i})
    case LeftForNextPoll => Move(s, id, Scanning(i + 1))
    case Refused => Move(s, id, Ended)
  }

  /** Creating the owner file: exclusive, so a file or a missing directory makes the session go on to the next slot. */
  function AfterOpening(s: System, id: nat): System
    requires id in s.sessions && s.sessions[id].phase.Made?
  {
    var i := s.sessions[id].phase.slot;
    if i in s.slots && s.slots[i].owner.Missing? then
      Move(s, id, Opened(i)).(slots := s.slots[i := Slot(Opening(id), Some(s.now))])
    else Move(s, id, Scanning(i + 1))
  }

  /** Writing the text: into the slot, or into a file that was removed meanwhile. The session cannot tell. */
  function AfterFilling(s: System, id: nat): System
    requires id in s.sessions && s.sessions[id].phase.Opened?
  {
    var i := s.sessions[id].phase.slot;
    var held := Move(s, id, Holding(i));
    if i in s.slots && s.slots[i].owner == Opening(id) then held.(slots := s.slots[i := OwnedSlot(s.sessions[id].mine, s.now)]) else held
  }

  /** The step a session takes next, or `None` when the event is not possible in its phase. */
  function SessionStep(s: System, e: Event, max: nat): Option<System>
    requires !e.Boot? && !e.Die? && !e.Clock? && !e.Start?
    requires e.id in s.sessions
  {
    var me := s.sessions[e.id];
    match (e, me.phase)
    case (Mkdir(id), Scanning(i)) =>
      if i > max then None
      else if i in s.slots then Some(Move(s, id, Occupied(i)))
      else Some(Move(s, id, Made(i)).(slots := s.slots[i := FreshSlot(s.now)]))
    case (MkdirFails(id), Scanning(i)) => if i > max then None else Some(Move(s, id, Ended))
    case (EndPass(id), Scanning(i)) =>
      if i <= max then None
      else if s.now >= me.until then Some(Move(s, id, Ended))
      else Some(Move(s, id, Scanning(1)))
    case (Check(id), Occupied(i)) => Some(Checked(s, id))
    case (Remove(id, removal), Condemned(i)) => Some(AfterRemoval(s, id, removal))
    case (Reclaim(id, removal), Occupied(i)) =>
      var t := Checked(s, id);
      Some(if t.sessions[id].phase.Condemned? then AfterRemoval(t, id, removal) else t)
    case (WriteOwner(id), Made(i)) =>
      var t := AfterOpening(s, id);
      Some(if t.sessions[id].phase.Opened? then AfterFilling(t, id) else t)
    case (OpenOwner(id), Made(i)) => Some(AfterOpening(s, id))
    case (FillOwner(id), Opened(i)) => Some(AfterFilling(s, id))
    case (WriteFails(id), Made(i)) => Some(Move(s, id, Ended))
    case (WriteFails(id), Opened(i)) => Some(Move(s, id, Ended))
    case (ReleaseRead(id), Holding(i)) =>
      if i in s.slots && ReadOwner(s.slots[i]) == Some(me.mine) then Some(Move(s, id, Removing(i)))
      else Some(Move(s, id, Ended))
    case (ReleaseRemove(id), Removing(i)) => Some(Move(s, id, Ended).(slots := s.slots - {i}))
    case (ReleaseFails(id), Removing(i)) => Some(Move(s, id, Ended))
    case _ => None
  }

  function Next(s: System, e: Event, max: nat): Option<System> {
    match e
    case Boot(pid) => if pid in s.running then None else Some(s.(running := s.running + {pid}))
    case Die(pid) =>
      Some(s.(running := s.running - {pid},
              sessions := map id | id in s.sessions && s.sessions[id].pid != pid :: s.sessions[id]))
    case Clock(time) => Some(s.(now := time))
    case Start(id, pid, title, until) =>
      if id in s.sessions || pid !in s.running then None
      else Some(s.(sessions := s.sessions[id := Session(pid, OwnerText(pid, title), until, Scanning(1))]))
    case _ => if e.id in s.sessions then SessionStep(s, e, max) else None
  }

  function Run(s: System, events: seq<Event>, max: nat): Option<System>
    decreases |events|
  {
    if events == [] then Some(s)
    else
      var t := Next(s, events[0], max);
      if t.None? then None else Run(t.value, events[1..], max)
  }

  /** The stale check and the removal never come apart, and neither do the creation and the writing of an owner file. */
  predicate OneStep(events: seq<Event>) {
    forall j :: 0 <= j < |events| ==> !events[j].Check? && !events[j].OpenOwner?
  }
}

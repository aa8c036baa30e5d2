/**
 Placing the inputs file, as `install` of ansible/tools/seed_host_inputs.py does it: a temporary file is written,
 closed to root, flushed, then linked or renamed into place, read back, and swept. Any number of runs interleave one
 system call at a time; each call may fail, each write may be short, and a run or the machine may stop anywhere.
 */
module SeedInstall {
  import opened Common

  const FILE_MODE: nat := 384   // 0600
  const ROOT_UID: nat := 0
  const ROOT_GID: nat := 0
  const MAX_BYTES := 1_048_576

  datatype File = File(data: seq<Byte>, uid: nat, gid: nat, mode: nat)

  /** A file on disk; `synced` when its bytes and attributes are known to survive a loss of power. */
  datatype Inode = Inode(file: File, synced: bool)

  datatype Name = Destination | Temporary(run: nat) | Elsewhere(text: string)

  /** `durable` holds what the destination's entry may be found to name after a loss of power. */
  datatype Disk = Disk(inodes: map<nat, Inode>, entries: map<Name, nat>, durable: set<Option<nat>>)

  datatype Outcome = Success | AlreadyExists | NotReadBack | Failed

  /** Where a run is: the call it makes next, or how it ended. */
  datatype Phase =
    | Opening
    | SettingMode(ino: nat)
    | SettingOwner(ino: nat)
    | Writing(ino: nat, written: nat)
    | Closing(ino: nat)
    | Placing(ino: nat)
    | FlushingDirectory
    | ReadingBack
    | Sweeping(result: Outcome)
    | Exited(outcome: Outcome)
    | NeverOpened
    | SweepFailed
    | Dead

  datatype Run = Run(document: seq<Byte>, replace: bool, phase: Phase, placed: bool)

  datatype World = World(disk: Disk, runs: map<nat, Run>, next: nat)

  /** What the system answers to a call. */
  datatype Answer = Done | Opened(uid: nat, gid: nat, mode: nat) | Wrote(count: nat) | Fails

  datatype Event = Begin(id: nat, document: seq<Byte>, replace: bool) | Call(id: nat, answer: Answer) | Crash(id: nat)

  function Entry(disk: Disk, name: Name): Option<nat> {
    if name in disk.entries then Some(disk.entries[name]) else None
  }

  /** The finished file: the whole document, root's, closed to everyone else. */
  function Final(document: seq<Byte>): File {
    File(document, ROOT_UID, ROOT_GID, FILE_MODE)
  }

  function Lookup(disk: Disk, name: Name): Option<File> {
    if name in disk.entries && disk.entries[name] in disk.inodes
    then Some(disk.inodes[disk.entries[name]].file) else None
  }

  function Enter(w: World, id: nat, phase: Phase): World
    requires id in w.runs
  {
    w.(runs := w.runs[id := w.runs[id].(phase := phase)])
  }

  function SetInode(w: World, ino: nat, inode: Inode): World {
    w.(disk := w.disk.(inodes := w.disk.inodes[ino := inode]))
  }

  /** The destination now names `ino`; a loss of power may still bring back what it named before. */
  function Place(w: World, id: nat, ino: nat): World
    requires id in w.runs
  {
    var entries := w.disk.entries[Destination := ino];
    var run := w.runs[id].(phase := FlushingDirectory, placed := true);
    w.(disk := w.disk.(entries := if run.replace then entries - {Temporary(id)} else entries,
                       durable := w.disk.durable + {Some(ino)}),
       runs := w.runs[id := run])
  }

  /** One system call of a run, and its answer. */
  function Step(w: World, id: nat, answer: Answer): Option<World>
    requires id in w.runs
  {
    var run := w.runs[id];
    match run.phase
    case Opening =>
      if answer.Fails? then Some(Enter(w, id, NeverOpened))
      else if answer.Opened? && Temporary(id) !in w.disk.entries then
        var file := File([], answer.uid, answer.gid, answer.mode);
        var made := SetInode(w, w.next, Inode(file, false));
        Some(Enter(made.(disk := made.disk.(entries := made.disk.entries[Temporary(id) := w.next]), next := w.next + 1),
                   id, SettingMode(w.next)))
      else None
    case SettingMode(ino) =>
      if answer.Fails? then Some(Enter(w, id, Sweeping(Failed)))
      else if answer.Done? && ino in w.disk.inodes then
        var file := w.disk.inodes[ino].file.(mode := FILE_MODE);
        Some(Enter(SetInode(w, ino, Inode(file, false)), id, SettingOwner(ino)))
      else None
    case SettingOwner(ino) =>
      if answer.Fails? then Some(Enter(w, id, Sweeping(Failed)))
      else if answer.Done? && ino in w.disk.inodes then
        var file := w.disk.inodes[ino].file.(uid := ROOT_UID, gid := ROOT_GID);
        Some(Enter(SetInode(w, ino, Inode(file, false)), id, Writing(ino, 0)))
      else None
    case Writing(ino, written) =>
      if answer.Fails? then Some(Enter(w, id, Sweeping(Failed)))
      else if ino !in w.disk.inodes then None
      else if answer.Wrote? && 1 <= answer.count && written + answer.count <= |run.document| then
        var file := w.disk.inodes[ino].file;
        var longer := file.(data := file.data + run.document[written..written + answer.count]);
        Some(Enter(SetInode(w, ino, Inode(longer, false)), id, Writing(ino, written + answer.count)))
      else if answer.Done? && written == |run.document| then
        Some(Enter(SetInode(w, ino, w.disk.inodes[ino].(synced := true)), id, Closing(ino)))
      else None
    case Closing(ino) =>
      if answer.Fails? then Some(Enter(w, id, Sweeping(Failed)))
      else if answer.Done? then Some(Enter(w, id, Placing(ino)))
      else None
    case Placing(ino) =>
      if answer.Fails? then Some(Enter(w, id, Sweeping(Failed)))
      else if !answer.Done? then None
      else if !run.replace && Destination in w.disk.entries then Some(Enter(w, id, Sweeping(AlreadyExists)))
      else Some(Place(w, id, ino))
    case FlushingDirectory =>
      if answer.Fails? then Some(Enter(w, id, Sweeping(Failed)))
      else if answer.Done? then
        Some(Enter(w.(disk := w.disk.(durable := {Entry(w.disk, Destination)})), id, ReadingBack))
      else None
    case ReadingBack =>
      if answer.Fails? then Some(Enter(w, id, Sweeping(NotReadBack)))
      else if answer.Done? then
        var same := Lookup(w.disk, Destination) == Some(Final(run.document)) && |run.document| <= MAX_BYTES;
        Some(Enter(w, id, Sweeping(if same then Success else NotReadBack)))
      else None
    case Sweeping(result) =>
      if answer.Done? then
        Some(Enter(w.(disk := w.disk.(entries := w.disk.entries - {Temporary(id)})), id, Exited(result)))
      else if answer.Fails? && Temporary(id) in w.disk.entries then Some(Enter(w, id, SweepFailed))
      else None
    case _ => None
  }

  predicate Ended(phase: Phase) {
    phase.Exited? || phase.NeverOpened? || phase.SweepFailed? || phase.Dead?
  }

  function Next(w: World, e: Event): Option<World> {
    match e
    case Begin(id, document, replace) =>
      if id in w.runs then None else Some(w.(runs := w.runs[id := Run(document, replace, Opening, false)]))
    case Call(id, answer) => if id in w.runs then Step(w, id, answer) else None
    case Crash(id) => if id in w.runs && !Ended(w.runs[id].phase) then Some(Enter(w, id, Dead)) else None
  }

  function After(w: World, events: seq<Event>): Option<World>
    decreases |events|
  {
    if events == [] then Some(w)
    else
      var t := Next(w, events[0]);
      if t.None? then None else After(t.value, events[1..])
  }

  /** What the destination may hold when the machine comes back after losing power. */
  ghost predicate AfterPowerLoss(disk: Disk, found: Option<File>) {
    exists entry :: entry in disk.durable &&
      match entry
      case None => found.None?
      case Some(ino) => found.Some? && (ino in disk.inodes && disk.inodes[ino].synced ==> found.value == disk.inodes[ino].file)
  }

  /** No run has begun, and the destination, if there, is safely on disk. */
  ghost predicate Start(w: World) {
    && w.runs == map[]
    && (forall ino :: ino in w.disk.inodes ==> ino < w.next)
    && (forall name :: name in w.disk.entries ==> w.disk.entries[name] in w.disk.inodes)
    && w.disk.durable == {Entry(w.disk, Destination)}
    && (Destination in w.disk.entries ==> w.disk.inodes[w.disk.entries[Destination]].synced)
  }
}

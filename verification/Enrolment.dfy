/**
 The first-boot enrolment script that hetzner-host/cloudInit.ts renders: what running it can leave on a host, and
 what the shell reads back from its here-document.
 */
module Enrolment {
  import opened Common

  // ---- The script ----

  datatype Fetched = Wrapper | Program | Lock

  /** The part of the bootstrap record the script is rendered from. */
  datatype Bootstrap = Bootstrap(wrapper: string, program: string, lock: string, config: string) {
    function Sha256(file: Fetched): string {
      match file
      case Wrapper => wrapper
      case Program => program
      case Lock => lock
    }
  }

  datatype Command =
    | SetStep(name: string)
    | MakeDirectory
    | SetTrap
    | ClearMarkers
    | Fetch(file: Fetched)
    | Check(file: Fetched, digest: string)
    | InstallEngine
    | DraftConfig(text: string)
    | InstallConfig
    | InstallTrigger
    | MarkDone

  /** The commands in the order they are written. */
  function Script(b: Bootstrap): (r: seq<Command>)
    ensures |r| == SCRIPT_LENGTH
  {
    [ SetStep("start"), MakeDirectory, SetTrap, ClearMarkers, MakeDirectory,
      SetStep("fetch-wrapper"), Fetch(Wrapper), SetStep("fetch-program"), Fetch(Program), SetStep("fetch-lock"), Fetch(Lock),
      SetStep("check-wrapper"), Check(Wrapper, b.Sha256(Wrapper)),
      SetStep("check-program"), Check(Program, b.Sha256(Program)),
      SetStep("check-lock"), Check(Lock, b.Sha256(Lock)),
      SetStep("install-engine"), InstallEngine,
      SetStep("write-config"), MakeDirectory, MakeDirectory, DraftConfig(b.config), InstallConfig,
      SetStep("install-trigger"), InstallTrigger,
      SetStep("done"), MarkDone ]
  }

  const TRAP_AT := 2
  const ENGINE_AT := 18
  const DRAFT_AT := 22
  const TRIGGER_AT := 25
  const DONE_AT := 27
  const SCRIPT_LENGTH := 28

  function CheckAt(file: Fetched): nat {
    match file
    case Wrapper => 12
    case Program => 14
    case Lock => 16
  }

  function FetchAt(file: Fetched): nat {
    match file
    case Wrapper => 6
    case Program => 8
    case Lock => 10
  }

  // ---- Running it ----

  /** What the script can leave on a host. `step` and `trapped` are the shell's own. */
  datatype Host = Host(work: map<Fetched, string>, draft: Option<string>, engine: bool, config: Option<string>,
                       wrapper: Option<string>, failed: Option<string>, finished: Option<string>,
                       step: string, trapped: bool)

  /** How a command goes: whether it may succeed, and what it leaves at its target when it does not (or fetches). */
  datatype Fate = Fate(ok: bool, left: Option<string>)

  /** The SHA-256 of a text; nothing here depends on which function it is. */
  type Digest = string -> string

  /** Whether a command succeeds: a check needs the file's own digest, an install needs its source. */
  predicate Succeeds(host: Host, c: Command, fate: Fate, sha: Digest) {
    match c
    case SetStep(_) => true
    case SetTrap => true
    case Fetch(file) => fate.ok && fate.left.Some?
    case Check(file, digest) => fate.ok && file in host.work && sha(host.work[file]) == digest
    case InstallConfig => fate.ok && host.draft.Some?
    case InstallTrigger => fate.ok && Wrapper in host.work
    case _ => fate.ok
  }

  /** The host after a command, successful or not. */
  function Effect(host: Host, c: Command, fate: Fate, sha: Digest): Host {
    var ok := Succeeds(host, c, fate, sha);
    match c
    case SetStep(name) => host.(step := name)
    case SetTrap => host.(trapped := true)
    case ClearMarkers => if ok then host.(failed := None, finished := None) else host
    case Fetch(file) => if fate.left.Some? then host.(work := host.work[file := fate.left.value]) else host
    case InstallEngine => host.(engine := ok)
    case DraftConfig(text) => host.(draft := if ok then Some(text) else fate.left)
    case InstallConfig => host.(config := if ok then host.draft else fate.left)
    case InstallTrigger => host.(wrapper := if ok then Some(host.work[Wrapper]) else fate.left)
    case MarkDone => host.(finished := if ok then Some("ok\n") else fate.left)
    case MakeDirectory => host
    case Check(_, _) => host
  }

  /** `on_exit` after a failure: the failure marker names the step, if it can be written. */
  function Record(host: Host, fate: Fate): Host {
    if !host.trapped then host
    else host.(failed := if fate.ok then Some("failed at " + host.step + "\n") else fate.left)
  }

  /** Where a run of the script is: before command `at`, or stopped by a failure of command `at`. */
  datatype Progress = Progress(host: Host, at: nat, stopped: bool)

  function Advance(p: Progress, script: seq<Command>, fate: Fate, sha: Digest): Progress
    requires !p.stopped && p.at < |script|
  {
    var after := Effect(p.host, script[p.at], fate, sha);
    if Succeeds(p.host, script[p.at], fate, sha) then Progress(after, p.at + 1, false)
    else Progress(after, p.at, true)
  }

  /** The script after as many commands as there are fates: `set -e` stops it at the first failure. */
  function Run(p: Progress, script: seq<Command>, fates: seq<Fate>, sha: Digest): Progress
    decreases |fates|
  {
    if fates == [] || p.stopped || p.at >= |script| then p
    else Run(Advance(p, script, fates[0], sha), script, fates[1..], sha)
  }

  predicate Fresh(host: Host) {
    host.wrapper.None? && host.failed.None? && host.finished.None? && !host.engine && !host.trapped
  }

  /** The step named last before a place in the script. */
  function StepAt(script: seq<Command>, at: nat): string
    requires at <= |script|
  {
    if at == 0 then "" else if script[at - 1].SetStep? then script[at - 1].name else StepAt(script, at - 1)
  }

  // ---- What every run keeps ----

  predicate Verified(host: Host, file: Fetched, b: Bootstrap, sha: Digest)
  {
    file in host.work && sha(host.work[file]) == b.Sha256(file)
  }

  /** What holds before command `at`, every earlier command having succeeded. */
  ghost predicate Inv(host: Host, at: nat, b: Bootstrap, sha: Digest)
  {
    && at <= SCRIPT_LENGTH
    && (forall file: Fetched :: at > CheckAt(file) ==> Verified(host, file, b, sha))
    && (at > ENGINE_AT ==> host.engine)
    && (host.wrapper.Some? <==> at > TRIGGER_AT)
    && (at > DRAFT_AT ==> host.draft == Some(b.config))
    && (at > DRAFT_AT + 1 ==> host.config == Some(b.config))
    && (at > TRIGGER_AT ==> Wrapper in host.work && host.wrapper == Some(host.work[Wrapper]))
    && (host.finished.Some? <==> at > DONE_AT)
    && (at > DONE_AT ==> host.finished == Some("ok\n"))
    && (host.trapped <==> at > TRAP_AT)
    && host.failed.None?
    && (at > 0 ==> host.step == StepAt(Script(b), at))
  }

  /** Where each kind of command stands in the script. */
  lemma CommandAt(b: Bootstrap, at: nat)
    requires at < SCRIPT_LENGTH
    ensures var c := Script(b)[at];
            && (c.SetTrap? <==> at == TRAP_AT) && (c.ClearMarkers? <==> at == TRAP_AT + 1)
            && (c.Fetch? <==> at == FetchAt(Wrapper) || at == FetchAt(Program) || at == FetchAt(Lock))
            && (c.Fetch? ==> FetchAt(c.file) == at)
            && (c.Check? <==> at == CheckAt(Wrapper) || at == CheckAt(Program) || at == CheckAt(Lock))
            && (c.Check? ==> CheckAt(c.file) == at && c.digest == b.Sha256(c.file))
            && (c.InstallEngine? <==> at == ENGINE_AT)
            && (c.DraftConfig? <==> at == DRAFT_AT) && (c.DraftConfig? ==> c.text == b.config)
            && (c.InstallConfig? <==> at == DRAFT_AT + 1)
            && (c.InstallTrigger? <==> at == TRIGGER_AT)
            && (c.MarkDone? <==> at == DONE_AT)
  {
  }

  /** The step named at `from`, with no other named since, is the one in force. */
  lemma {:induction false} StepSince(script: seq<Command>, from: nat, at: nat)
    requires from < at <= |script| && script[from].SetStep?
    requires forall k :: from < k < at ==> !script[k].SetStep?
    ensures StepAt(script, at) == script[from].name
  {
    if at > from + 1 {
      StepSince(script, from, at - 1);
    }
  }

  /** The step name in force at each command that can fail: what its failure is recorded under. */
  lemma StepsAreNamed(b: Bootstrap)
    ensures StepAt(Script(b), TRAP_AT + 1) == "start"
    ensures StepAt(Script(b), FetchAt(Wrapper)) == "fetch-wrapper" && StepAt(Script(b), CheckAt(Wrapper)) == "check-wrapper"
    ensures StepAt(Script(b), FetchAt(Program)) == "fetch-program" && StepAt(Script(b), CheckAt(Program)) == "check-program"
    ensures StepAt(Script(b), FetchAt(Lock)) == "fetch-lock" && StepAt(Script(b), CheckAt(Lock)) == "check-lock"
    ensures StepAt(Script(b), ENGINE_AT) == "install-engine"
    ensures StepAt(Script(b), DRAFT_AT) == "write-config" && StepAt(Script(b), DRAFT_AT + 1) == "write-config"
    ensures StepAt(Script(b), TRIGGER_AT) == "install-trigger" && StepAt(Script(b), DONE_AT) == "done"
  {
    hide StepAt, Script;
    StepsAreSet(b);
    var s := Script(b);
    StepSince(s, 0, 3);
    StepSince(s, 5, 6);
    StepSince(s, 7, 8);
    StepSince(s, 9, 10);
    StepSince(s, 11, 12);
    StepSince(s, 13, 14);
    StepSince(s, 15, 16);
    StepSince(s, 17, 18);
    StepSince(s, 19, 22);
    StepSince(s, 19, 23);
    StepSince(s, 24, 25);
    StepSince(s, 26, 27);
  }

  const STEPS_AT := {0, 5, 7, 9, 11, 13, 15, 17, 19, 24, 26}

  lemma StepsAreSet(b: Bootstrap)
    ensures forall at :: 0 <= at < SCRIPT_LENGTH ==> (Script(b)[at].SetStep? <==> at in STEPS_AT)
    ensures var s := Script(b);
            && s[0].name == "start" && s[5].name == "fetch-wrapper" && s[7].name == "fetch-program" && s[9].name == "fetch-lock"
            && s[11].name == "check-wrapper" && s[13].name == "check-program" && s[15].name == "check-lock"
            && s[17].name == "install-engine" && s[19].name == "write-config" && s[24].name == "install-trigger" && s[26].name == "done"
  {
  }

  /** Whatever markers a host had, past their removal neither is left until the run itself writes one. */
  lemma {:induction false} OldMarkersAreCleared(p: Progress, b: Bootstrap, fates: seq<Fate>, sha: Digest)
    requires p.at <= SCRIPT_LENGTH && (p.at > TRAP_AT + 1 ==> p.host.failed.None? && (p.at < DONE_AT ==> p.host.finished.None?))
    ensures var q := Run(p, Script(b), fates, sha);
            q.at > TRAP_AT + 1 ==> q.host.failed.None? && (q.at < DONE_AT ==> q.host.finished.None?)
    decreases |fates|
  {
    if fates != [] && !p.stopped && p.at < SCRIPT_LENGTH {
      CommandAt(b, p.at);
      hide Script;
      OldMarkersAreCleared(Advance(p, Script(b), fates[0], sha), b, fates[1..], sha);
    }
  }

  lemma CommandKeepsInv(host: Host, at: nat, b: Bootstrap, fate: Fate, sha: Digest)
    requires Inv(host, at, b, sha) && at < SCRIPT_LENGTH && Succeeds(host, Script(b)[at], fate, sha)
    ensures Inv(Effect(host, Script(b)[at], fate, sha), at + 1, b, sha)
  {
    CommandAt(b, at);
    CommandNamesItsStep(host, at, b, fate, sha);
    hide Script, StepAt;
  }

  lemma CommandNamesItsStep(host: Host, at: nat, b: Bootstrap, fate: Fate, sha: Digest)
    requires at < SCRIPT_LENGTH && (at > 0 ==> host.step == StepAt(Script(b), at))
    ensures Effect(host, Script(b)[at], fate, sha).step == StepAt(Script(b), at + 1)
  {
    hide Verified, Succeeds;
    assert StepAt(Script(b), at + 1) == if Script(b)[at].SetStep? then Script(b)[at].name else StepAt(Script(b), at);
    if at == 0 {
      assert Script(b)[0] == SetStep("start");
    }
    hide Script, StepAt;
  }

  /** Where a run can be: every command before `at` succeeded and, if it stopped, command `at` did not. */
  ghost predicate Reached(p: Progress, b: Bootstrap, sha: Digest) {
    if !p.stopped then Inv(p.host, p.at, b, sha)
    else
      p.at < SCRIPT_LENGTH &&
      exists before, fate :: Inv(before, p.at, b, sha) && !Succeeds(before, Script(b)[p.at], fate, sha)
                             && p.host == Effect(before, Script(b)[p.at], fate, sha)
  }

  lemma {:induction false} RunIsReached(p: Progress, b: Bootstrap, fates: seq<Fate>, sha: Digest)
    requires Reached(p, b, sha)
    ensures Reached(Run(p, Script(b), fates, sha), b, sha)
    decreases |fates|
  {
    hide Succeeds, Effect, Inv;
    if fates != [] && !p.stopped && p.at < |Script(b)| {
      if Succeeds(p.host, Script(b)[p.at], fates[0], sha) {
        assert p.at < SCRIPT_LENGTH;
        CommandKeepsInv(p.host, p.at, b, fates[0], sha);
      }
      RunIsReached(Advance(p, Script(b), fates[0], sha), b, fates[1..], sha);
    }
  }

  function FromStart(host: Host, b: Bootstrap, fates: seq<Fate>, sha: Digest): Progress {
    Run(Progress(host, 0, false), Script(b), fates, sha)
  }

  lemma StartIsReached(host: Host, b: Bootstrap, fates: seq<Fate>, sha: Digest)
    requires Fresh(host)
    ensures Reached(FromStart(host, b, fates, sha), b, sha)
  {
    RunIsReached(Progress(host, 0, false), b, fates, sha);
  }

  predicate HasDigest(host: Host, file: Fetched, digest: string, sha: Digest) {
    file in host.work && sha(host.work[file]) == digest
  }

  predicate TriggerIsChecked(host: Host, at: nat, b: Bootstrap, sha: Digest) {
    host.wrapper.Some? ==>
      && host.engine && at >= TRIGGER_AT
      && Verified(host, Wrapper, b, sha) && Verified(host, Program, b, sha) && Verified(host, Lock, b, sha)
      && (at > TRIGGER_AT ==> sha(host.wrapper.value) == b.wrapper)
  }

  lemma InvChecksTrigger(host: Host, at: nat, b: Bootstrap, sha: Digest)
    requires Inv(host, at, b, sha)
    ensures TriggerIsChecked(host, at, b, sha)
  {
    assert at > CheckAt(Wrapper) ==> Verified(host, Wrapper, b, sha);
    assert at > CheckAt(Program) ==> Verified(host, Program, b, sha);
    assert at > CheckAt(Lock) ==> Verified(host, Lock, b, sha);
  }

  lemma FailureChecksTrigger(host: Host, at: nat, b: Bootstrap, fate: Fate, sha: Digest)
    requires Inv(host, at, b, sha) && at < SCRIPT_LENGTH && !Succeeds(host, Script(b)[at], fate, sha)
    ensures TriggerIsChecked(Effect(host, Script(b)[at], fate, sha), at, b, sha)
  {
    CommandAt(b, at);
    hide Script, StepAt;
    InvChecksTrigger(host, at, b, sha);
    assert at > CheckAt(Wrapper) ==> Verified(host, Wrapper, b, sha);
    assert at > CheckAt(Program) ==> Verified(host, Program, b, sha);
    assert at > CheckAt(Lock) ==> Verified(host, Lock, b, sha);
  }

  /**
   At every moment of every run from a fresh host, a pull program is at its place only if all three files have the
   recorded hashes and the engine install succeeded; and past its own install it is the very file that was checked.
   */
  lemma TriggerOnlyAfterChecks(host: Host, b: Bootstrap, fates: seq<Fate>, sha: Digest)
    requires Fresh(host)
    ensures var p := FromStart(host, b, fates, sha);
            TriggerIsChecked(p.host, p.at, b, sha)
    ensures var p := FromStart(host, b, fates, sha);
            p.host.wrapper.Some? ==>
              && HasDigest(p.host, Wrapper, b.wrapper, sha) && HasDigest(p.host, Program, b.program, sha)
              && HasDigest(p.host, Lock, b.lock, sha)
  {
    StartIsReached(host, b, fates, sha);
    var p := FromStart(host, b, fates, sha);
    hide FromStart, Effect, Succeeds, Inv, TriggerIsChecked;
    if p.stopped {
      var before, fate :| Inv(before, p.at, b, sha) && !Succeeds(before, Script(b)[p.at], fate, sha)
                          && p.host == Effect(before, Script(b)[p.at], fate, sha);
      FailureChecksTrigger(before, p.at, b, fate, sha);
    } else {
      InvChecksTrigger(p.host, p.at, b, sha);
    }
  }

  /**
   A done marker is there only when every command before its own write succeeded; a run that completes leaves it
   reading `ok`, with no failure marker and the record's own config installed.
   */
  lemma DoneMarkerMeansDone(host: Host, b: Bootstrap, fates: seq<Fate>, sha: Digest)
    requires Fresh(host)
    ensures var p := FromStart(host, b, fates, sha);
            && (p.host.finished.Some? ==> p.at >= DONE_AT)
            && (p.at == SCRIPT_LENGTH ==>
                  p.host.finished == Some("ok\n") && p.host.failed.None? && p.host.config == Some(b.config))
  {
    StartIsReached(host, b, fates, sha);
    var p := FromStart(host, b, fates, sha);
    if p.stopped {
      var before, fate :| Inv(before, p.at, b, sha) && !Succeeds(before, Script(b)[p.at], fate, sha)
                          && p.host == Effect(before, Script(b)[p.at], fate, sha);
      CommandAt(b, p.at);
      hide Script, StepAt, FromStart;
    }
  }

  /** A command that fails leaves the shell's own state and the failure marker alone. */
  lemma FailureKeepsShell(host: Host, c: Command, fate: Fate, sha: Digest)
    requires !Succeeds(host, c, fate, sha)
    ensures var after := Effect(host, c, fate, sha);
            after.step == host.step && after.trapped == host.trapped && after.failed == host.failed
  {
  }

  /** A failure after the trap is set records the step it stopped at; one before it records nothing. */
  lemma FailureNamesItsStep(host: Host, b: Bootstrap, fates: seq<Fate>, sha: Digest, marker: Fate)
    requires Fresh(host) && FromStart(host, b, fates, sha).stopped
    ensures var p := FromStart(host, b, fates, sha);
            && p.at < SCRIPT_LENGTH
            && (p.at > TRAP_AT && marker.ok ==>
                  Record(p.host, marker).failed == Some("failed at " + StepAt(Script(b), p.at) + "\n"))
            && (p.at < TRAP_AT ==> Record(p.host, marker).failed.None?)
  {
    StartIsReached(host, b, fates, sha);
    var p := FromStart(host, b, fates, sha);
    hide Script, StepAt, Succeeds, Effect, Verified, FromStart;
    var before, fate :| Inv(before, p.at, b, sha) && !Succeeds(before, Script(b)[p.at], fate, sha)
                        && p.host == Effect(before, Script(b)[p.at], fate, sha);
    FailureKeepsShell(before, Script(b)[p.at], fate, sha);
  }

  /** From a fresh host the engine is installed exactly when the run got past that command. */
  lemma EngineMeansInstalled(host: Host, b: Bootstrap, fates: seq<Fate>, sha: Digest)
    requires Fresh(host)
    ensures var p := FromStart(host, b, fates, sha); p.host.engine <==> p.at > ENGINE_AT
  {
    EngineFollowsRun(Progress(host, 0, false), b, fates, sha);
  }

  lemma {:induction false} EngineFollowsRun(p: Progress, b: Bootstrap, fates: seq<Fate>, sha: Digest)
    requires p.at <= SCRIPT_LENGTH && (p.host.engine <==> p.at > ENGINE_AT)
    ensures var q := Run(p, Script(b), fates, sha); q.host.engine <==> q.at > ENGINE_AT
    decreases |fates|
  {
    if fates != [] && !p.stopped && p.at < SCRIPT_LENGTH {
      CommandAt(b, p.at);
      hide Script;
      EngineFollowsRun(Advance(p, Script(b), fates[0], sha), b, fates[1..], sha);
    }
  }

  /** What a command reads and where it writes, if it does. */
  datatype Target = Work(file: Fetched) | DraftFile | ConfigFile | WrapperFile | DoneFile

  function TargetOf(c: Command): Option<Target> {
    match c
    case Fetch(file) => Some(Work(file))
    case DraftConfig(_) => Some(DraftFile)
    case InstallConfig => Some(ConfigFile)
    case InstallTrigger => Some(WrapperFile)
    case MarkDone => Some(DoneFile)
    case _ => None
  }

  function FileIn(host: Host, target: Target): Option<string> {
    match target
    case Work(file) => if file in host.work then Some(host.work[file]) else None
    case DraftFile => host.draft
    case ConfigFile => host.config
    case WrapperFile => host.wrapper
    case DoneFile => host.finished
  }

  /** A command that fails may leave anything in the file it was writing; one that succeeds leaves a file there; no command writes another's. */
  lemma CommandWritesItsTarget(host: Host, c: Command, fate: Fate, sha: Digest, target: Target)
    ensures var after := Effect(host, c, fate, sha);
            && (TargetOf(c) == Some(target) && Succeeds(host, c, fate, sha) ==> FileIn(after, target).Some?)
            && (TargetOf(c) == Some(target) && !Succeeds(host, c, fate, sha) && (fate.left.Some? || !c.Fetch?) ==> FileIn(after, target) == fate.left)
            && (TargetOf(c) != Some(target) && !(c.ClearMarkers? && target.DoneFile?) ==> FileIn(after, target) == FileIn(host, target))
  {
  }

  // ---- A run in which nothing goes wrong ----

  /** The command may succeed, and a fetch brings the file the record describes. */
  predicate GoesWell(c: Command, fate: Fate, b: Bootstrap, sha: Digest) {
    fate.ok && (c.Fetch? ==> fate.left.Some? && sha(fate.left.value) == b.Sha256(c.file))
  }

  predicate FetchedSoFar(host: Host, at: nat, b: Bootstrap, sha: Digest) {
    forall file: Fetched :: at > FetchAt(file) ==> Verified(host, file, b, sha)
  }

  lemma GoodCommandSucceeds(host: Host, at: nat, b: Bootstrap, fate: Fate, sha: Digest)
    requires Inv(host, at, b, sha) && at < SCRIPT_LENGTH && FetchedSoFar(host, at, b, sha)
    requires GoesWell(Script(b)[at], fate, b, sha)
    ensures Succeeds(host, Script(b)[at], fate, sha)
    ensures FetchedSoFar(Effect(host, Script(b)[at], fate, sha), at + 1, b, sha)
  {
    CommandAt(b, at);
    hide Script;
    assert at > FetchAt(Wrapper) ==> Verified(host, Wrapper, b, sha);
    assert at > FetchAt(Program) ==> Verified(host, Program, b, sha);
    assert at > FetchAt(Lock) ==> Verified(host, Lock, b, sha);
  }

  /** The script can finish: when every command goes well and the fetched files are the recorded ones, it runs to its end. */
  lemma {:induction false} GoodRunCompletes(p: Progress, b: Bootstrap, fates: seq<Fate>, sha: Digest)
    requires !p.stopped && p.at + |fates| == SCRIPT_LENGTH
    requires Inv(p.host, p.at, b, sha) && FetchedSoFar(p.host, p.at, b, sha)
    requires forall k :: 0 <= k < |fates| ==> GoesWell(Script(b)[p.at + k], fates[k], b, sha)
    ensures Run(p, Script(b), fates, sha).at == SCRIPT_LENGTH && !Run(p, Script(b), fates, sha).stopped
    decreases |fates|
  {
    hide Succeeds, Effect, Inv, FetchedSoFar, GoesWell, Script;
    if fates != [] {
      assert GoesWell(Script(b)[p.at + 0], fates[0], b, sha);
      GoodCommandSucceeds(p.host, p.at, b, fates[0], sha);
      CommandKeepsInv(p.host, p.at, b, fates[0], sha);
      forall k | 0 <= k < |fates[1..]|
        ensures GoesWell(Script(b)[p.at + 1 + k], fates[1..][k], b, sha)
      {
        assert GoesWell(Script(b)[p.at + (k + 1)], fates[k + 1], b, sha);
      }
      GoodRunCompletes(Advance(p, Script(b), fates[0], sha), b, fates[1..], sha);
    }
  }
}

/** The role test harness: the Molecule steps in order, the steps that always run, and the steps a scenario may leave out. */
module RoleHarness {
  import opened Common

  datatype Status = Pass | Fail | Skip

  datatype Step = Step(name: string, always: bool, skipped: bool)

  /** What one run of a command comes to: its status, after the changed tasks are counted, or an interrupt. */
  datatype Run = Done(ok: bool) | Interrupted

  datatype Outcome = Outcome(name: string, status: Status)

  function StatusOf(run: Run): Status {
    if run == Done(true) then Pass else Fail
  }

  /** The positions of the always-run steps, in order. */
  function AlwaysRun(steps: seq<Step>): (r: seq<nat>)
    ensures forall k :: k in r <==> 0 <= k < |steps| && steps[k].always
  {
    if steps == [] then []
    else
      var last := |steps| - 1;
      var before := AlwaysRun(steps[..last]);
      if steps[last].always then before + [last] else before
  }

  /** A step failed among the first `k`. */
  predicate Broken(outcomes: seq<Outcome>, k: nat)
    requires k <= |outcomes|
  {
    exists j :: 0 <= j < k && outcomes[j].status == Fail
  }

  /** What is owed for the first |outcomes| steps when nothing interrupted them; `started` are the steps whose commands ran. */
  ghost predicate InOrder(steps: seq<Step>, runs: nat -> Run, outcomes: seq<Outcome>, started: seq<nat>)
    requires |outcomes| <= |steps|
  {
    && (forall k :: 0 <= k < |outcomes| ==> outcomes[k].name == steps[k].name)
    && (forall k :: 0 <= k < |outcomes| ==>
          (outcomes[k].status == Skip <==> steps[k].skipped || (Broken(outcomes, k) && !steps[k].always)))
    && (forall n :: 0 <= n < |started| ==> started[n] < |outcomes|)
    && (forall m, n :: 0 <= m < n < |started| ==> started[m] < started[n])
    && (forall k :: 0 <= k < |outcomes| ==> (k in started <==> outcomes[k].status != Skip))
    && (forall n :: 0 <= n < |started| ==> runs(n).Done? && outcomes[started[n]].status == StatusOf(runs(n)))
  }

  /** The steps started before an interrupt: in order so far, the last of them perhaps interrupted itself. */
  ghost predicate CutShort(steps: seq<Step>, runs: nat -> Run, started: seq<nat>) {
    exists outcomes: seq<Outcome> :: |outcomes| <= |steps| && CutAfter(steps, runs, outcomes, started)
  }

  ghost predicate CutAfter(steps: seq<Step>, runs: nat -> Run, outcomes: seq<Outcome>, started: seq<nat>)
    requires |outcomes| <= |steps|
  {
    || InOrder(steps, runs, outcomes, started)
    || (started != [] && |outcomes| < |steps|
        && var before := started[..|started| - 1];
           && InOrder(steps, runs, outcomes, before) && started == before + [|outcomes|] && runs(|before|).Interrupted?
           && !(steps[|outcomes|].skipped || (Broken(outcomes, |outcomes|) && !steps[|outcomes|].always)))
  }

  /** What `run_molecule` may come to: the outcomes of all the steps, or an interrupt after which the `finally` ran, all of it or up to an interrupt of its own. */
  ghost predicate MayEnd(steps: seq<Step>, runs: nat -> Run, result: Option<seq<Outcome>>, started: seq<nat>, cleanup: seq<nat>) {
    if result.Some? then |result.value| == |steps| && InOrder(steps, runs, result.value, started) && cleanup == []
    else
      && CutShort(steps, runs, started)
      && cleanup <= AlwaysRun(steps)
      && (cleanup != AlwaysRun(steps) ==> cleanup != [] && runs(|started| + |cleanup| - 1).Interrupted?)
  }

  /**
   `run_molecule`. `runs(n)` is what the run of the n-th command comes to and `interrupts(k)` whether an interrupt arrives
   as the loop turns to step k, or to its end when k is the number of steps. A result of None is an interrupt going on to
   the caller. `cleanup` are the commands the `finally` runs; one of them may be interrupted too.
   */
  method RunMolecule(steps: seq<Step>, runs: nat -> Run, interrupts: nat -> bool)
    returns (result: Option<seq<Outcome>>, started: seq<nat>, cleanup: seq<nat>)
    ensures MayEnd(steps, runs, result, started, cleanup)
    ensures result.Some? ==> forall k :: 0 <= k <= |steps| ==> !interrupts(k)
    ensures result.None? ==> exists k :: 0 <= k <= |steps| && (interrupts(k) || (started != [] && runs(|started| - 1).Interrupted?))
  {
    hide InOrder;
    var outcomes: seq<Outcome> := [];
    var broken, finished := false, true;
    started, cleanup := [], [];
    NothingRunYet(steps, runs);
    for k := 0 to |steps|
      invariant |outcomes| == k && InOrder(steps, runs, outcomes, started) && finished
      invariant broken == Broken(outcomes, k)
      invariant forall j :: 0 <= j < k ==> !interrupts(j)
    {
      if interrupts(k) {
        finished := false;
        break;
      }
      if steps[k].skipped || (broken && !steps[k].always) {
        OneMoreSkipped(steps, runs, outcomes, started);
        outcomes := outcomes + [Outcome(steps[k].name, Skip)];
      } else {
        var run := runs(|started|);
        if run.Interrupted? {
          started := started + [k];
          assert started[..|started| - 1] + [k] == started;
          finished := false;
          break;
        }
        OneMoreRun(steps, runs, outcomes, started);
        started := started + [k];
        outcomes := outcomes + [Outcome(steps[k].name, StatusOf(run))];
        broken := broken || StatusOf(run) == Fail;
      }
    }
    assert CutAfter(steps, runs, outcomes, started);
    finished := finished && !interrupts(|steps|);
    if finished {
      return Some(outcomes), started, [];
    }
    cleanup := RunAlways(steps, runs, |started|);
    return None, started, cleanup;
  }

  lemma NothingRunYet(steps: seq<Step>, runs: nat -> Run)
    ensures InOrder(steps, runs, [], [])
  {
  }

  lemma BrokenSoFar(outcomes: seq<Outcome>, o: Outcome)
    ensures forall k :: 0 <= k <= |outcomes| ==> Broken(outcomes + [o], k) == Broken(outcomes, k)
    ensures Broken(outcomes + [o], |outcomes| + 1) <==> Broken(outcomes, |outcomes|) || o.status == Fail
  {
    forall k | 0 <= k <= |outcomes|
      ensures Broken(outcomes + [o], k) == Broken(outcomes, k)
    {
      forall j | 0 <= j < k
        ensures (outcomes + [o])[j] == outcomes[j]
      {
      }
    }
    assert (outcomes + [o])[|outcomes|] == o;
    if j :| 0 <= j < |outcomes| && outcomes[j].status == Fail {
      assert (outcomes + [o])[j].status == Fail;
    }
  }

  lemma OneMoreSkipped(steps: seq<Step>, runs: nat -> Run, outcomes: seq<Outcome>, started: seq<nat>)
    requires |outcomes| < |steps| && InOrder(steps, runs, outcomes, started)
    requires steps[|outcomes|].skipped || (Broken(outcomes, |outcomes|) && !steps[|outcomes|].always)
    ensures var more := outcomes + [Outcome(steps[|outcomes|].name, Skip)];
            InOrder(steps, runs, more, started) && Broken(more, |more|) == Broken(outcomes, |outcomes|)
  {
    hide Broken;
    BrokenSoFar(outcomes, Outcome(steps[|outcomes|].name, Skip));
  }

  lemma OneMoreRun(steps: seq<Step>, runs: nat -> Run, outcomes: seq<Outcome>, started: seq<nat>)
    requires |outcomes| < |steps| && InOrder(steps, runs, outcomes, started)
    requires !(steps[|outcomes|].skipped || (Broken(outcomes, |outcomes|) && !steps[|outcomes|].always))
    requires runs(|started|).Done?
    ensures var status := StatusOf(runs(|started|));
            var more := outcomes + [Outcome(steps[|outcomes|].name, status)];
            InOrder(steps, runs, more, started + [|outcomes|]) &&
            Broken(more, |more|) == (Broken(outcomes, |outcomes|) || status == Fail)
  {
    hide Broken;
    var k := |outcomes|;
    BrokenSoFar(outcomes, Outcome(steps[k].name, StatusOf(runs(|started|))));
    var longer := started + [k];
    forall j | 0 <= j <= k
      ensures j in longer <==> j in started || j == k
    {
      assert longer[|started|] == k;
    }
  }

  /** The `finally`: every always-run step once more, in order. */
  method RunAlways(steps: seq<Step>, runs: nat -> Run, before: nat) returns (cleanup: seq<nat>)
    ensures cleanup <= AlwaysRun(steps)
    ensures cleanup != AlwaysRun(steps) ==> cleanup != [] && runs(before + |cleanup| - 1).Interrupted?
  {
    cleanup := [];
    for k := 0 to |steps|
      invariant cleanup == AlwaysRun(steps[..k])
    {
      assert steps[..k + 1][..k] == steps[..k];
      AlwaysRunGrows(steps, k + 1);
      if steps[k].always {
        cleanup := cleanup + [k];
        if runs(before + |cleanup| - 1).Interrupted? {
          return;
        }
      }
    }
    assert steps[..|steps|] == steps;
  }

  lemma {:induction false} AlwaysRunGrows(steps: seq<Step>, k: nat)
    requires k <= |steps|
    ensures AlwaysRun(steps[..k]) <= AlwaysRun(steps)
    decreases |steps|
  {
    if k < |steps| {
      AlwaysRunGrows(steps[..|steps| - 1], k);
      assert steps[..|steps| - 1][..k] == steps[..k];
    } else {
      assert steps[..k] == steps;
    }
  }

  /**
   The always-run guarantee, exactly: on a normal return an always-run step was started if and only if it is not marked
   skipped; after an interrupt every always-run step is started, marked or not, unless the `finally` is interrupted too.
   */
  lemma AlwaysRunStepsAreStarted(steps: seq<Step>, runs: nat -> Run, result: Option<seq<Outcome>>, started: seq<nat>, cleanup: seq<nat>, k: nat)
    requires MayEnd(steps, runs, result, started, cleanup) && k < |steps| && steps[k].always
    ensures result.Some? ==> (k in started + cleanup <==> !steps[k].skipped)
    ensures result.None? ==> k in cleanup || runs(|started| + |cleanup| - 1).Interrupted?
  {
  }

  lemma FirstIsStarted(started: seq<nat>)
    ensures started == [] || started[0] in started
  {
  }

  /** The guarantee does not hold for every step list: an always-run step that is marked skipped is passed over. */
  lemma SkippedAlwaysStepIsNotStarted(runs: nat -> Run, outcomes: seq<Outcome>, started: seq<nat>)
    requires MayEnd([Step("destroy", true, true)], runs, Some(outcomes), started, [])
    ensures outcomes == [Outcome("destroy", Skip)] && started == []
  {
    FirstIsStarted(started);
  }

  /** After the first failure nothing but the always-run steps is run. */
  lemma NothingRunsAfterFailure(steps: seq<Step>, runs: nat -> Run, outcomes: seq<Outcome>, started: seq<nat>, j: nat, k: nat)
    requires MayEnd(steps, runs, Some(outcomes), started, [])
    requires j < k < |steps| && outcomes[j].status == Fail && !steps[k].always
    ensures outcomes[k] == Outcome(steps[k].name, Skip) && k !in started
  {
    assert Broken(outcomes, k);
  }

  /** However the run ends, a step started after a command failed is an always-run one, and none marked skipped is started. */
  lemma StartedAfterFailureIsAlways(steps: seq<Step>, runs: nat -> Run, result: Option<seq<Outcome>>, started: seq<nat>, cleanup: seq<nat>, m: nat, n: nat)
    requires MayEnd(steps, runs, result, started, cleanup) && m < n < |started|
    ensures started[m] < started[n] < |steps| && !steps[started[n]].skipped
    ensures runs(m) == Done(false) ==> steps[started[n]].always
  {
    hide InOrder, CutAfter;
    var outcomes := OutcomesSoFar(steps, runs, result, started, cleanup);
    CutIsAllowed(steps, runs, outcomes, started, m, n);
  }

  lemma OutcomesSoFar(steps: seq<Step>, runs: nat -> Run, result: Option<seq<Outcome>>, started: seq<nat>, cleanup: seq<nat>) returns (outcomes: seq<Outcome>)
    requires MayEnd(steps, runs, result, started, cleanup)
    ensures |outcomes| <= |steps| && CutAfter(steps, runs, outcomes, started)
  {
    hide InOrder;
    if result.Some? {
      outcomes := result.value;
    } else {
      outcomes :| |outcomes| <= |steps| && CutAfter(steps, runs, outcomes, started);
    }
  }

  lemma CutIsAllowed(steps: seq<Step>, runs: nat -> Run, outcomes: seq<Outcome>, started: seq<nat>, m: nat, n: nat)
    requires |outcomes| <= |steps| && CutAfter(steps, runs, outcomes, started) && m < n < |started|
    ensures started[m] < started[n] < |steps| && !steps[started[n]].skipped
    ensures runs(m) == Done(false) ==> steps[started[n]].always
  {
    hide InOrder;
    if InOrder(steps, runs, outcomes, started) {
      StartedIsAllowed(steps, runs, outcomes, started, m, n);
    } else {
      var before := started[..|started| - 1];
      assert InOrder(steps, runs, outcomes, before) && started == before + [|outcomes|];
      StartedSoFar(steps, runs, outcomes, before, m);
      if n < |before| {
        StartedIsAllowed(steps, runs, outcomes, before, m, n);
      }
    }
  }

  /** A step started so far is among the outcomes, and failed if its command did. */
  lemma StartedSoFar(steps: seq<Step>, runs: nat -> Run, outcomes: seq<Outcome>, started: seq<nat>, m: nat)
    requires |outcomes| <= |steps| && InOrder(steps, runs, outcomes, started) && m < |started|
    ensures started[m] < |outcomes| && (runs(m) == Done(false) ==> outcomes[started[m]].status == Fail)
  {
  }

  lemma StartedIsAllowed(steps: seq<Step>, runs: nat -> Run, outcomes: seq<Outcome>, started: seq<nat>, m: nat, n: nat)
    requires |outcomes| <= |steps| && InOrder(steps, runs, outcomes, started) && m < n < |started|
    ensures started[m] < started[n] < |outcomes| && !steps[started[n]].skipped
    ensures runs(m) == Done(false) ==> steps[started[n]].always
  {
    assert started[n] in started;
    if runs(m) == Done(false) {
      assert outcomes[started[m]].status == Fail;
    }
  }

  /**
   An outcome is its own command's: of the started steps, in order, the n-th passed exactly when the n-th command was run
   to success, and failed exactly when it was run to a failure; the others were skipped.
   */
  lemma OutcomesAreTheCommands(steps: seq<Step>, runs: nat -> Run, outcomes: seq<Outcome>, started: seq<nat>)
    requires MayEnd(steps, runs, Some(outcomes), started, [])
    ensures forall n :: 0 <= n < |started| ==> started[n] < |outcomes|
    ensures forall n :: 0 <= n < |started| ==> (outcomes[started[n]].status == Pass <==> runs(n) == Done(true))
    ensures forall n :: 0 <= n < |started| ==> (outcomes[started[n]].status == Fail <==> runs(n) == Done(false))
    ensures forall k :: 0 <= k < |outcomes| && k !in started ==> outcomes[k].status == Skip
  {
    forall n | 0 <= n < |started|
      ensures runs(n).Done? && outcomes[started[n]].status == if runs(n).ok then Pass else Fail
    {
    }
  }

  /** No outcome is a failure exactly when every command that was started succeeded. */
  lemma NoFailureIsAllSucceeded(steps: seq<Step>, runs: nat -> Run, outcomes: seq<Outcome>, started: seq<nat>)
    requires MayEnd(steps, runs, Some(outcomes), started, [])
    ensures (forall k :: 0 <= k < |outcomes| ==> outcomes[k].status != Fail) <==>
            forall n :: 0 <= n < |started| ==> runs(n) == Done(true)
  {
    OutcomesAreTheCommands(steps, runs, outcomes, started);
    forall k | 0 <= k < |outcomes| && outcomes[k].status == Fail
      ensures exists n :: 0 <= n < |started| && runs(n) != Done(true)
    {
      var n :| 0 <= n < |started| && started[n] == k;
    }
  }

  /** The first failure is the first started command that did not succeed: every one before it did. */
  lemma FirstFailureIsFirstFailed(steps: seq<Step>, runs: nat -> Run, outcomes: seq<Outcome>, started: seq<nat>, n: nat)
    requires MayEnd(steps, runs, Some(outcomes), started, [])
    requires n < |started| && runs(n) == Done(false) && forall m :: 0 <= m < n ==> runs(m) == Done(true)
    ensures outcomes[started[n]].status == Fail && forall k :: 0 <= k < started[n] ==> outcomes[k].status != Fail
  {
    OutcomesAreTheCommands(steps, runs, outcomes, started);
    forall k | 0 <= k < started[n]
      ensures outcomes[k].status != Fail
    {
      if k in started {
        var m :| 0 <= m < |started| && started[m] == k;
        assert m < n;
      }
    }
  }

  /** A run passes when no step failed: then every step passed but those marked skipped. */
  lemma CleanRunIsComplete(steps: seq<Step>, runs: nat -> Run, outcomes: seq<Outcome>, started: seq<nat>)
    requires MayEnd(steps, runs, Some(outcomes), started, [])
    requires forall k :: 0 <= k < |outcomes| ==> outcomes[k].status != Fail
    ensures forall k :: 0 <= k < |steps| ==> outcomes[k] == Outcome(steps[k].name, if steps[k].skipped then Skip else Pass)
  {
  }

  // ---- The steps of a scenario ----

  const SKIPPABLE_STEPS := ["check-fresh", "idempotence", "verify", "check-configured", "molecule-check"]
  const COMMANDS := ["create", "prepare", "check-fresh", "converge", "idempotence", "verify", "check-configured", "molecule-check"]

  function Commands(names: seq<string>, leftOut: seq<string>): (r: seq<Step>)
    ensures |r| == |names| && forall k :: 0 <= k < |r| ==> r[k] == Step(names[k], false, names[k] in leftOut)
  {
    if names == [] then [] else [Step(names[0], false, names[0] in leftOut)] + Commands(names[1..], leftOut)
  }

  /** `molecule_steps`, given the names the scenario's file leaves out. */
  function MoleculeSteps(leftOut: seq<string>): seq<Step> {
    Commands(COMMANDS, leftOut) + [Step("destroy", true, false)]
  }

  /** Whatever a scenario leaves out and whatever happens, `destroy` is started, unless the `finally` itself is interrupted. */
  lemma DestroyIsStarted(leftOut: seq<string>, runs: nat -> Run, result: Option<seq<Outcome>>, started: seq<nat>, cleanup: seq<nat>)
    requires MayEnd(MoleculeSteps(leftOut), runs, result, started, cleanup)
    ensures |COMMANDS| in started + cleanup || (result.None? && runs(|started| + |cleanup| - 1).Interrupted?)
  {
    hide InOrder;
    AlwaysRunStepsAreStarted(MoleculeSteps(leftOut), runs, result, started, cleanup, |COMMANDS|);
  }

  datatype Problem = Refused(scenario: nat, names: seq<string>) | RunsNowhere(step: string)

  /** The names a skip file lists: its stripped lines without the empty ones and the comments, each once. */
  function Listed(lines: seq<string>): (r: seq<string>)
    ensures forall name :: name in r <==> name in lines && name != "" && name[0] != '#'
    ensures forall j, k :: 0 <= j < k < |r| ==> r[j] != r[k]
  {
    if lines == [] then []
    else
      var last := |lines| - 1;
      var names := Listed(lines[..last]);
      assert forall name :: name in lines <==> name in lines[..last] || name == lines[last];
      if lines[last] == "" || lines[last][0] == '#' || lines[last] in names then names else names + [lines[last]]
  }

  function NotSkippable(names: seq<string>): (r: seq<string>)
    ensures forall name :: name in r <==> name in names && name !in SKIPPABLE_STEPS
  {
    if names == [] then []
    else (if names[0] in SKIPPABLE_STEPS then [] else [names[0]]) + NotSkippable(names[1..])
  }

  /** `read_skips`: the names left out, none of them when the file is absent or names a step that may not be. */
  function ReadSkips(file: Option<seq<string>>): (r: (seq<string>, seq<string>))
    ensures r.0 == [] || r.1 == []
    ensures forall name :: name in r.0 ==> name in SKIPPABLE_STEPS
  {
    if file.None? then ([], [])
    else
      var names := Listed(file.value);
      if NotSkippable(names) != [] then ([], NotSkippable(names)) else (names, [])
  }

  predicate LeftOutEverywhere(files: seq<Option<seq<string>>>, step: string) {
    forall s :: 0 <= s < |files| ==> step in ReadSkips(files[s]).0
  }

  predicate IsRunsNowhere(files: seq<Option<seq<string>>>, steps: seq<string>, p: Problem) {
    p.RunsNowhere? && p.step in steps && LeftOutEverywhere(files, p.step)
  }

  /** `skip_problems`, over the skip files of a role's scenarios. */
  method SkipProblems(files: seq<Option<seq<string>>>) returns (problems: seq<Problem>)
    ensures forall s: nat, names :: Refused(s, names) in problems <==> s < |files| && ReadSkips(files[s]).1 == names != []
    ensures forall step :: RunsNowhere(step) in problems <==> files != [] && step in SKIPPABLE_STEPS && LeftOutEverywhere(files, step)
  {
    hide ReadSkips;
    problems := [];
    var leftOut: seq<seq<string>> := [];
    for s := 0 to |files|
      invariant |leftOut| == s && forall t :: 0 <= t < s ==> leftOut[t] == ReadSkips(files[t]).0
      invariant forall p :: p in problems ==> p.Refused?
      invariant forall t: nat, names :: Refused(t, names) in problems <==> t < s && ReadSkips(files[t]).1 == names != []
    {
      var (names, found) := ReadSkips(files[s]);
      if found != [] {
        problems := problems + [Refused(s, found)];
      }
      leftOut := leftOut + [names];
    }
    if leftOut != [] {
      ghost var before := problems;
      for n := 0 to |SKIPPABLE_STEPS|
        invariant forall p :: p in problems <==> p in before || IsRunsNowhere(files, SKIPPABLE_STEPS[..n], p)
      {
        var step := SKIPPABLE_STEPS[n];
        assert SKIPPABLE_STEPS[..n + 1] == SKIPPABLE_STEPS[..n] + [step];
        if forall t :: 0 <= t < |leftOut| ==> step in leftOut[t] {
          problems := problems + [RunsNowhere(step)];
        } else {
          assert !LeftOutEverywhere(files, step);
        }
      }
      assert SKIPPABLE_STEPS[..|SKIPPABLE_STEPS|] == SKIPPABLE_STEPS;
    }
  }

  /** What a scenario file's steps run: a step of the scenario's list with the given name, not marked skipped. */
  predicate RunsIn(file: Option<seq<string>>, name: string) {
    exists k :: 0 <= k < |MoleculeSteps(ReadSkips(file).0)| &&
                MoleculeSteps(ReadSkips(file).0)[k].name == name && !MoleculeSteps(ReadSkips(file).0)[k].skipped
  }

  lemma StepRunsUnlessLeftOut(file: Option<seq<string>>, step: string)
    requires step in SKIPPABLE_STEPS
    ensures RunsIn(file, step) <==> step !in ReadSkips(file).0
  {
    hide ReadSkips, Commands;
    var leftOut := ReadSkips(file).0;
    var steps := MoleculeSteps(leftOut);
    assert step in COMMANDS && step != "destroy";
    var k :| 0 <= k < |COMMANDS| && COMMANDS[k] == step;
    assert steps[k] == Step(step, false, step in leftOut);
    forall j | 0 <= j < |steps| && steps[j].name == step
      ensures steps[j].skipped == (step in leftOut)
    {
      assert steps[j] == if j < |COMMANDS| then Step(COMMANDS[j], false, COMMANDS[j] in leftOut) else Step("destroy", true, false);
    }
  }

  /**
   No step is dropped, exactly: when no step is reported to run nowhere, every step that may be left out runs in some
   scenario if and only if the role has a scenario at all.
   */
  lemma SkippableStepsRunSomewhere(files: seq<Option<seq<string>>>)
    requires forall step :: step in SKIPPABLE_STEPS ==> files == [] || !LeftOutEverywhere(files, step)
    ensures (forall step :: step in SKIPPABLE_STEPS ==> exists s :: 0 <= s < |files| && RunsIn(files[s], step)) <==> files != []
  {
    hide RunsIn, ReadSkips;
    if files == [] {
      assert SKIPPABLE_STEPS[0] in SKIPPABLE_STEPS;
    } else {
      forall step | step in SKIPPABLE_STEPS
        ensures exists s :: 0 <= s < |files| && RunsIn(files[s], step)
      {
        var s :| 0 <= s < |files| && step !in ReadSkips(files[s]).0;
        StepRunsUnlessLeftOut(files[s], step);
      }
    }
  }

  // ---- A scenario's steps, from the lines of its file ----

  /** The file names the step on a line of its own; a comment names nothing. */
  predicate Names(file: Option<seq<string>>, name: string) {
    file.Some? && name in file.value && name != "" && name[0] != '#'
  }

  /** The steps that may be left out: all that neither make the machine nor configure it. */
  predicate MayBeLeftOut(name: string) {
    name == "check-fresh" || name == "idempotence" || name == "verify" || name == "check-configured" || name == "molecule-check"
  }

  /** The file leaves the step out: it names it, and names nothing that may not be left out. */
  ghost predicate LeavesOut(file: Option<seq<string>>, name: string) {
    Names(file, name) && forall other :: Names(file, other) ==> MayBeLeftOut(other)
  }

  /** What reading a file gives: the steps it leaves out, or the names it may not have. */
  lemma ReadSkipsIsExact(file: Option<seq<string>>, name: string)
    ensures name in ReadSkips(file).0 <==> LeavesOut(file, name)
    ensures name in ReadSkips(file).1 <==> Names(file, name) && !MayBeLeftOut(name)
  {
    assert forall other :: MayBeLeftOut(other) <==> other in SKIPPABLE_STEPS;
    if file.Some? {
      var names := Listed(file.value);
      assert forall other :: other in names <==> Names(file, other);
      var refused := NotSkippable(names);
      assert refused != [] ==> refused[0] in refused;
    }
    hide MayBeLeftOut, Names;
  }

  /**
   The steps of a scenario, whatever its file says: the machine is made and prepared, configured once and again, checked,
   and destroyed at the end; only the five steps that may be left out are ever marked skipped, and `destroy` alone always runs.
   */
  lemma ScenarioSteps(file: Option<seq<string>>)
    ensures MoleculeSteps(ReadSkips(file).0) ==
            [ Step("create", false, false), Step("prepare", false, false),
              Step("check-fresh", false, LeavesOut(file, "check-fresh")), Step("converge", false, false),
              Step("idempotence", false, LeavesOut(file, "idempotence")), Step("verify", false, LeavesOut(file, "verify")),
              Step("check-configured", false, LeavesOut(file, "check-configured")),
              Step("molecule-check", false, LeavesOut(file, "molecule-check")), Step("destroy", true, false) ]
  {
    hide ReadSkips, LeavesOut, MoleculeSteps;
    var leftOut := ReadSkips(file).0;
    StepsByName(leftOut);
    forall name
      ensures name in leftOut <==> LeavesOut(file, name)
      ensures LeavesOut(file, name) ==> MayBeLeftOut(name)
    {
      LeftOutIsNamed(file, name);
    }
    assert !MayBeLeftOut("create") && !MayBeLeftOut("prepare") && !MayBeLeftOut("converge");
    hide MayBeLeftOut;
  }

  lemma LeftOutIsNamed(file: Option<seq<string>>, name: string)
    ensures name in ReadSkips(file).0 <==> LeavesOut(file, name)
    ensures LeavesOut(file, name) ==> MayBeLeftOut(name)
  {
    hide ReadSkips, MayBeLeftOut, Names;
    ReadSkipsIsExact(file, name);
  }

  lemma StepsByName(leftOut: seq<string>)
    ensures MoleculeSteps(leftOut) ==
            [ Step("create", false, "create" in leftOut), Step("prepare", false, "prepare" in leftOut),
              Step("check-fresh", false, "check-fresh" in leftOut), Step("converge", false, "converge" in leftOut),
              Step("idempotence", false, "idempotence" in leftOut), Step("verify", false, "verify" in leftOut),
              Step("check-configured", false, "check-configured" in leftOut),
              Step("molecule-check", false, "molecule-check" in leftOut), Step("destroy", true, false) ]
  {
    hide Commands;
    var steps := MoleculeSteps(leftOut);
    assert |steps| == 9 && forall k :: 0 <= k < 8 ==> steps[k] == Step(COMMANDS[k], false, COMMANDS[k] in leftOut);
  }

  /** The names keep the order of the lines they first stand on. */
  lemma {:induction false} ListedInOrder(lines: seq<string>, j: nat, k: nat) returns (i: nat)
    requires j < k < |Listed(lines)|
    ensures i < |lines| && lines[i] == Listed(lines)[j] && Listed(lines)[k] !in lines[..i + 1]
  {
    var last := |lines| - 1;
    var before := Listed(lines[..last]);
    if k < |before| {
      i := ListedInOrder(lines[..last], j, k);
      assert lines[..last][..i + 1] == lines[..i + 1];
    } else {
      assert before[j] in lines[..last];
      i :| 0 <= i < last && lines[..last][i] == before[j];
      assert lines[last] !in lines[..last];
      assert forall n :: 0 <= n <= i ==> lines[..i + 1][n] == lines[..last][n];
    }
  }

  /** The refused names keep the order they are listed in. */
  lemma {:induction false} RefusedInOrder(a: seq<string>, b: seq<string>)
    ensures NotSkippable(a + b) == NotSkippable(a) + NotSkippable(b)
  {
    if a == [] {
      assert a + b == b;
    } else {
      assert (a + b)[1..] == a[1..] + b;
      RefusedInOrder(a[1..], b);
    }
  }
}

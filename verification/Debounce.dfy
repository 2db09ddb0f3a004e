/**
 The debounced script runner of `fsnotify`: a change starts a goroutine that waits ten seconds, runs
 the script of the path and then forgets the path; until then further changes are dropped. Events and
 goroutines interleave freely; every access to the event map is one atomic step.
 */
module DebounceSpec {

  const TEN_SECONDS: nat := 10_000_000_000

  datatype Phase = Waiting | Running | Done

  /** One goroutine: when it was started, and when its script started and ended. */
  datatype Job = Job(path: string, born: nat, phase: Phase, start: nat, end: nat)

  /** The event map's keys, every goroutine ever started, oldest first, and the clock. */
  datatype State = State(eventMap: set<string>, jobs: seq<Job>, now: nat)

  datatype Action = Notify(path: string) | Tick(d: nat) | Fire(i: nat) | Finish(i: nat)

  type Scripts = map<string, string>

  predicate Scripted(scripts: Scripts, path: string) {
    path in scripts && scripts[path] != ""
  }

  const Init := State({}, [], 0)

  predicate Enabled(s: State, a: Action) {
    match a
    case Notify(_) => true
    case Tick(_) => true
    case Fire(i) => i < |s.jobs| && s.jobs[i].phase == Waiting && s.jobs[i].born + TEN_SECONDS <= s.now
    case Finish(i) => i < |s.jobs| && s.jobs[i].phase == Running
  }

  function Step(s: State, a: Action, scripts: Scripts): State
    requires Enabled(s, a)
  {
    match a
    case Notify(path) =>
      if path in s.eventMap then s
      else s.(eventMap := s.eventMap + {path},
              jobs := if Scripted(scripts, path) then s.jobs + [Job(path, s.now, Waiting, 0, 0)] else s.jobs)
    case Tick(d) => s.(now := s.now + d)
    case Fire(i) => s.(jobs := s.jobs[i := s.jobs[i].(phase := Running, start := s.now)])
    case Finish(i) =>
      s.(jobs := s.jobs[i := s.jobs[i].(phase := Done, end := s.now)], eventMap := s.eventMap - {s.jobs[i].path})
  }

  /** Every action is enabled when its turn comes. */
  predicate Run(s: State, acts: seq<Action>, scripts: Scripts)
    decreases |acts|
  {
    acts == [] || (Enabled(s, acts[0]) && Run(Step(s, acts[0], scripts), acts[1..], scripts))
  }

  function Exec(s: State, acts: seq<Action>, scripts: Scripts): State
    requires Run(s, acts, scripts)
    decreases |acts|
  {
    if acts == [] then s else Exec(Step(s, acts[0], scripts), acts[1..], scripts)
  }

  predicate InFlight(s: State, i: nat, path: string) {
    i < |s.jobs| && s.jobs[i].path == path && s.jobs[i].phase != Done
  }

  predicate JobTimes(j: Job, now: nat) {
    && j.born <= now
    && (j.phase != Waiting ==> j.born + TEN_SECONDS <= j.start <= now)
    && (j.phase == Done ==> j.start <= j.end <= now)
  }

  ghost predicate Inv(s: State, scripts: Scripts) {
    && (forall i :: 0 <= i < |s.jobs| ==> JobTimes(s.jobs[i], s.now) && Scripted(scripts, s.jobs[i].path))
    && (forall i, j :: 0 <= i < j < |s.jobs| && s.jobs[i].path == s.jobs[j].path ==>
          s.jobs[i].phase == Done && s.jobs[i].end <= s.jobs[j].born)
    && (forall i :: 0 <= i < |s.jobs| && s.jobs[i].phase != Done ==> s.jobs[i].path in s.eventMap)
    && (forall p :: p in s.eventMap && Scripted(scripts, p) ==> exists i: nat :: InFlight(s, i, p))
  }

  lemma InvStep(s: State, a: Action, scripts: Scripts)
    requires Inv(s, scripts) && Enabled(s, a)
    ensures Inv(Step(s, a, scripts), scripts)
  {
    match a
    case Notify(path) => NotifyInv(s, path, scripts);
    case Tick(d) =>
      var t := Step(s, a, scripts);
      forall p | p in t.eventMap && Scripted(scripts, p) ensures exists i: nat :: InFlight(t, i, p) {
        var i: nat :| InFlight(s, i, p);
        assert InFlight(t, i, p);
      }
    case Fire(i) => FireInv(s, i, scripts);
    case Finish(i) => FinishInv(s, i, scripts);
  }

  lemma NotifyInv(s: State, path: string, scripts: Scripts)
    requires Inv(s, scripts)
    ensures Inv(Step(s, Notify(path), scripts), scripts)
  {
    var t := Step(s, Notify(path), scripts);
    forall p | p in t.eventMap && Scripted(scripts, p) ensures exists i: nat :: InFlight(t, i, p) {
      if p in s.eventMap {
        var i: nat :| InFlight(s, i, p);
        assert InFlight(t, i, p);
      } else {
        assert InFlight(t, |s.jobs|, p);
      }
    }
  }

  lemma FireInv(s: State, k: nat, scripts: Scripts)
    requires Inv(s, scripts) && Enabled(s, Fire(k))
    ensures Inv(Step(s, Fire(k), scripts), scripts)
  {
    var t := Step(s, Fire(k), scripts);
    forall p | p in t.eventMap && Scripted(scripts, p) ensures exists i: nat :: InFlight(t, i, p) {
      var i: nat :| InFlight(s, i, p);
      assert InFlight(t, i, p);
    }
  }

  lemma FinishInv(s: State, k: nat, scripts: Scripts)
    requires Inv(s, scripts) && Enabled(s, Finish(k))
    ensures Inv(Step(s, Finish(k), scripts), scripts)
  {
    var t := Step(s, Finish(k), scripts);
    forall p | p in t.eventMap && Scripted(scripts, p) ensures exists i: nat :: InFlight(t, i, p) {
      var i: nat :| InFlight(s, i, p);
      assert InFlight(t, i, p);
    }
  }

  lemma {:induction false} InvExec(s: State, acts: seq<Action>, scripts: Scripts)
    requires Inv(s, scripts) && Run(s, acts, scripts)
    ensures Inv(Exec(s, acts, scripts), scripts)
    decreases |acts|
  {
    if acts != [] {
      InvStep(s, acts[0], scripts);
      InvExec(Step(s, acts[0], scripts), acts[1..], scripts);
    }
  }

  /**
   In every reachable state a scripted path is in the map exactly when one goroutine, and one only,
   is in flight for it.
   */
  lemma OneInFlight(acts: seq<Action>, scripts: Scripts, path: string)
    requires Run(Init, acts, scripts) && path in scripts && scripts[path] != ""
    ensures var s := Exec(Init, acts, scripts);
            path in s.eventMap <==>
            exists i: nat :: InFlight(s, i, path) && forall j: nat :: InFlight(s, j, path) ==> j == i
  {
    InvExec(Init, acts, scripts);
    var s := Exec(Init, acts, scripts);
    if path in s.eventMap {
      var i: nat :| InFlight(s, i, path);
      forall j: nat | InFlight(s, j, path) ensures j == i {}
    }
  }

  /**
   In every reachable state two starts of one path's script lie ten seconds or more apart, the
   earlier script having ended.
   */
  lemma StartsApart(acts: seq<Action>, scripts: Scripts, i: nat, j: nat)
    requires Run(Init, acts, scripts)
    requires var jobs := Exec(Init, acts, scripts).jobs;
             i < j < |jobs| && jobs[i].path == jobs[j].path && jobs[j].phase != Waiting
    ensures var jobs := Exec(Init, acts, scripts).jobs;
            && jobs[i].phase == Done && jobs[i].start <= jobs[i].end
            && jobs[i].end + 10_000_000_000 <= jobs[j].start
  {
    InvExec(Init, acts, scripts);
    assert JobTimes(Exec(Init, acts, scripts).jobs[i], Exec(Init, acts, scripts).now);
  }

  /** The time that passes in a run. */
  function Clock(acts: seq<Action>): nat {
    if acts == [] then 0 else (if acts[0].Tick? then acts[0].d else 0) + Clock(acts[1..])
  }

  /** `a` happens after `time` has passed. */
  ghost predicate HappensAt(acts: seq<Action>, a: Action, time: int) {
    exists k :: 0 <= k < |acts| && IsAt(acts, a, time, k)
  }

  predicate IsAt(acts: seq<Action>, a: Action, time: int, k: nat)
    requires k < |acts|
  {
    acts[k] == a && Clock(acts[..k]) == time
  }

  lemma HappensFirst(acts: seq<Action>)
    requires acts != []
    ensures HappensAt(acts, acts[0], 0)
  {
    assert acts[..0] == [];
    assert IsAt(acts, acts[0], 0, 0);
  }

  lemma {:induction false} ClockCons(acts: seq<Action>)
    requires acts != []
    ensures Clock(acts) == Clock([acts[0]]) + Clock(acts[1..])
  {
    assert [acts[0]][1..] == [];
  }

  lemma HappensLater(acts: seq<Action>, a: Action, time: int)
    requires acts != []
    ensures HappensAt(acts[1..], a, time - Clock([acts[0]])) ==> HappensAt(acts, a, time)
  {
    if HappensAt(acts[1..], a, time - Clock([acts[0]])) {
      var k :| 0 <= k < |acts[1..]| && IsAt(acts[1..], a, time - Clock([acts[0]]), k);
      ClockCons(acts[..k + 1]);
      assert acts[..k + 1][1..] == acts[1..][..k] && acts[..k + 1][0] == acts[0];
      assert acts[k + 1] == acts[1..][k];
      assert IsAt(acts, a, time, k + 1);
    }
  }

  /**
   In every run the times of a goroutine are those at which its path changed, its script started and
   its script ended; ten seconds or more lie between the change and the start.
   */
  lemma JobHistory(acts: seq<Action>, scripts: Scripts, i: nat)
    requires Run(Init, acts, scripts) && i < |Exec(Init, acts, scripts).jobs|
    ensures var j := Exec(Init, acts, scripts).jobs[i];
            && HappensAt(acts, Notify(j.path), j.born)
            && (j.phase != Waiting ==> HappensAt(acts, Fire(i), j.start) && j.start - j.born >= 10_000_000_000)
            && (j.phase == Done ==> HappensAt(acts, Finish(i), j.end) && j.start <= j.end)
    ensures Exec(Init, acts, scripts).now == Clock(acts)
  {
    InvExec(Init, acts, scripts);
    assert JobTimes(Exec(Init, acts, scripts).jobs[i], Exec(Init, acts, scripts).now);
    BornExec(Init, acts, scripts, i);
    StartExec(Init, acts, scripts, i);
    EndExec(Init, acts, scripts, i);
  }

  lemma {:induction false} BornExec(s: State, acts: seq<Action>, scripts: Scripts, i: nat)
    requires Run(s, acts, scripts) && i < |Exec(s, acts, scripts).jobs|
    ensures Exec(s, acts, scripts).now == s.now + Clock(acts)
    ensures var j := Exec(s, acts, scripts).jobs[i];
            if i < |s.jobs| then j.path == s.jobs[i].path && j.born == s.jobs[i].born
            else HappensAt(acts, Notify(j.path), j.born - s.now)
    decreases |acts|
  {
    if acts != [] {
      var j := Exec(s, acts, scripts).jobs[i];
      BornExec(Step(s, acts[0], scripts), acts[1..], scripts, i);
      StepClock(s, acts[0], scripts);
      ClockCons(acts);
      HappensFirst(acts);
      HappensLater(acts, Notify(j.path), j.born - s.now);
    }
  }

  lemma {:induction false} StartExec(s: State, acts: seq<Action>, scripts: Scripts, i: nat)
    requires Run(s, acts, scripts) && i < |Exec(s, acts, scripts).jobs|
    ensures var j := Exec(s, acts, scripts).jobs[i];
            j.phase != Waiting ==>
              if i < |s.jobs| && s.jobs[i].phase != Waiting then j.start == s.jobs[i].start
              else HappensAt(acts, Fire(i), j.start - s.now)
    decreases |acts|
  {
    if acts != [] {
      var j := Exec(s, acts, scripts).jobs[i];
      StartExec(Step(s, acts[0], scripts), acts[1..], scripts, i);
      StepClock(s, acts[0], scripts);
      HappensFirst(acts);
      HappensLater(acts, Fire(i), j.start - s.now);
    }
  }

  lemma {:induction false} EndExec(s: State, acts: seq<Action>, scripts: Scripts, i: nat)
    requires Run(s, acts, scripts) && i < |Exec(s, acts, scripts).jobs|
    ensures var j := Exec(s, acts, scripts).jobs[i];
            j.phase == Done ==>
              if i < |s.jobs| && s.jobs[i].phase == Done then j.end == s.jobs[i].end
              else HappensAt(acts, Finish(i), j.end - s.now)
    decreases |acts|
  {
    if acts != [] {
      var j := Exec(s, acts, scripts).jobs[i];
      EndExec(Step(s, acts[0], scripts), acts[1..], scripts, i);
      StepClock(s, acts[0], scripts);
      HappensFirst(acts);
      HappensLater(acts, Finish(i), j.end - s.now);
    }
  }

  lemma StepClock(s: State, a: Action, scripts: Scripts)
    requires Enabled(s, a)
    ensures Step(s, a, scripts).now == s.now + Clock([a])
  {
    assert [a][1..] == [];
  }

  /** Ten seconds are enough: then the script of any waiting goroutine can start and end, and its path is free again. */
  lemma ScriptCanRun(acts: seq<Action>, scripts: Scripts, i: nat)
    requires Run(Init, acts, scripts)
    requires i < |Exec(Init, acts, scripts).jobs| && Exec(Init, acts, scripts).jobs[i].phase == Waiting
    ensures var s, next := Exec(Init, acts, scripts), [Tick(10_000_000_000), Fire(i), Finish(i)];
            && Run(s, next, scripts)
            && var t := Exec(s, next, scripts);
            i < |t.jobs| && t.jobs[i].phase == Done && t.eventMap == s.eventMap - {s.jobs[i].path}
  {
    InvExec(Init, acts, scripts);
    var s := Exec(Init, acts, scripts);
    assert JobTimes(s.jobs[i], s.now);
    RunThree(s, Tick(10_000_000_000), Fire(i), Finish(i), scripts);
  }

  /** How many changes of `path` were accepted rather than dropped. */
  function Accepted(s: State, acts: seq<Action>, scripts: Scripts, path: string): nat
    requires Run(s, acts, scripts)
    decreases |acts|
  {
    if acts == [] then 0
    else
      var rest := Accepted(Step(s, acts[0], scripts), acts[1..], scripts, path);
      if acts[0] == Notify(path) && path !in s.eventMap then rest + 1 else rest
  }

  function Finished(jobs: seq<Job>, path: string): nat {
    if jobs == [] then 0
    else (if jobs[0].path == path && jobs[0].phase == Done then 1 else 0) + Finished(jobs[1..], path)
  }

  function Pending(s: State, path: string): nat {
    if path in s.eventMap then 1 else 0
  }

  lemma {:induction false} FinishedUpdate(jobs: seq<Job>, i: nat, j: Job, path: string)
    requires i < |jobs| && jobs[i].phase != Done && j.path == jobs[i].path
    ensures Finished(jobs[i := j], path) == Finished(jobs, path) + if j.phase == Done && j.path == path then 1 else 0
  {
    if i > 0 {
      assert jobs[i := j][1..] == jobs[1..][i - 1 := j];
      FinishedUpdate(jobs[1..], i - 1, j, path);
    } else {
      assert jobs[i := j][1..] == jobs[1..];
    }
  }

  lemma {:induction false} FinishedAppend(jobs: seq<Job>, j: Job, path: string)
    requires j.phase != Done
    ensures Finished(jobs + [j], path) == Finished(jobs, path)
  {
    if jobs == [] {
      assert (jobs + [j])[1..] == [];
    } else {
      assert (jobs + [j])[1..] == jobs[1..] + [j];
      FinishedAppend(jobs[1..], j, path);
    }
  }

  lemma ConservedStep(s: State, a: Action, scripts: Scripts, path: string)
    requires Inv(s, scripts) && Enabled(s, a) && Scripted(scripts, path)
    ensures var t := Step(s, a, scripts);
            Finished(t.jobs, path) + Pending(t, path)
            == Finished(s.jobs, path) + Pending(s, path) + if a == Notify(path) && path !in s.eventMap then 1 else 0
  {
    match a
    case Notify(p) => FinishedAppend(s.jobs, Job(p, s.now, Waiting, 0, 0), path);
    case Tick(_) =>
    case Fire(i) => FinishedUpdate(s.jobs, i, s.jobs[i].(phase := Running, start := s.now), path);
    case Finish(i) => FinishedUpdate(s.jobs, i, s.jobs[i].(phase := Done, end := s.now), path);
  }

  lemma {:induction false} ConservedExec(s: State, acts: seq<Action>, scripts: Scripts, path: string)
    requires Inv(s, scripts) && Run(s, acts, scripts) && Scripted(scripts, path)
    ensures var t := Exec(s, acts, scripts);
            Finished(t.jobs, path) + Pending(t, path)
            == Finished(s.jobs, path) + Pending(s, path) + Accepted(s, acts, scripts, path)
    decreases |acts|
  {
    if acts != [] {
      InvStep(s, acts[0], scripts);
      ConservedStep(s, acts[0], scripts, path);
      ConservedExec(Step(s, acts[0], scripts), acts[1..], scripts, path);
    }
  }

  /** Over every run, each accepted change has finished its script or is still in flight. */
  lemma AcceptedAreConserved(acts: seq<Action>, scripts: Scripts, path: string)
    requires Run(Init, acts, scripts) && Scripted(scripts, path)
    ensures var t := Exec(Init, acts, scripts);
            Accepted(Init, acts, scripts, path) == Finished(t.jobs, path) + Pending(t, path)
  {
    ConservedExec(Init, acts, scripts, path);
  }

  /** What later states keep of the jobs of an earlier one. */
  ghost predicate Later(s: State, t: State) {
    && |s.jobs| <= |t.jobs| && s.now <= t.now
    && forall i :: 0 <= i < |s.jobs| ==>
         && t.jobs[i].path == s.jobs[i].path
         && (s.jobs[i].phase == Waiting ==> t.jobs[i].phase == Waiting || t.jobs[i].start >= s.now)
         && (s.jobs[i].phase != Waiting ==> t.jobs[i].phase != Waiting && t.jobs[i].start == s.jobs[i].start)
  }

  lemma {:induction false} LaterExec(s: State, acts: seq<Action>, scripts: Scripts)
    requires Run(s, acts, scripts)
    ensures Later(s, Exec(s, acts, scripts))
    decreases |acts|
  {
    if acts != [] {
      LaterExec(Step(s, acts[0], scripts), acts[1..], scripts);
    }
  }

  lemma {:induction false} QuietExec(s: State, acts: seq<Action>, scripts: Scripts, path: string)
    requires Run(s, acts, scripts) && Notify(path) !in acts
    ensures forall i :: |s.jobs| <= i < |Exec(s, acts, scripts).jobs| ==> Exec(s, acts, scripts).jobs[i].path != path
    decreases |acts|
  {
    if acts != [] {
      var t := Step(s, acts[0], scripts);
      assert Notify(path) !in acts[1..] && acts[0] in acts;
      LaterExec(t, acts[1..], scripts);
      QuietExec(t, acts[1..], scripts, path);
    }
  }

  /** The script of `path` is running. */
  ghost predicate ScriptRuns(s: State, path: string) {
    exists i :: 0 <= i < |s.jobs| && s.jobs[i].path == path && s.jobs[i].phase == Running
  }

  /** Job `i` started its script for `path` between `s` and `t`. */
  predicate StartedBetween(s: State, t: State, path: string, i: nat) {
    && i < |t.jobs| && t.jobs[i].path == path && t.jobs[i].phase != Waiting
    && (i < |s.jobs| ==> s.jobs[i].phase == Waiting)
  }

  /**
   A change that arrives while the script is not running is followed by a start of the script, in
   every run that goes on until the path has left the map, whatever else happens in between.
   */
  lemma ChangeIsFollowed(s: State, scripts: Scripts, path: string, acts: seq<Action>)
    requires Inv(s, scripts) && Scripted(scripts, path) && !ScriptRuns(s, path)
    requires Run(Step(s, Notify(path), scripts), acts, scripts)
    requires path !in Exec(Step(s, Notify(path), scripts), acts, scripts).eventMap
    ensures var t := Exec(Step(s, Notify(path), scripts), acts, scripts);
            exists i: nat :: StartedBetween(s, t, path, i) && t.jobs[i].start >= s.now
  {
    var u := Step(s, Notify(path), scripts);
    var t := Exec(u, acts, scripts);
    InvStep(s, Notify(path), scripts);
    InvExec(u, acts, scripts);
    LaterExec(u, acts, scripts);
    var i: nat :| InFlight(u, i, path);
    assert u.jobs[i].phase == Waiting;
    assert t.jobs[i].phase == Done;
    assert StartedBetween(s, t, path, i) && t.jobs[i].start >= s.now;
  }

  /**
   If no further change of the path arrives, a change is followed by a start of its script exactly
   when it did not arrive while the script was running: a change during the script's run is lost.
   */
  lemma ChangeIsFollowedIff(s: State, scripts: Scripts, path: string, acts: seq<Action>)
    requires Inv(s, scripts) && Scripted(scripts, path)
    requires Run(Step(s, Notify(path), scripts), acts, scripts) && Notify(path) !in acts
    requires path !in Exec(Step(s, Notify(path), scripts), acts, scripts).eventMap
    ensures var t := Exec(Step(s, Notify(path), scripts), acts, scripts);
            (exists i: nat :: StartedBetween(s, t, path, i)) <==> !ScriptRuns(s, path)
  {
    var u := Step(s, Notify(path), scripts);
    var t := Exec(u, acts, scripts);
    if ScriptRuns(s, path) {
      assert u == s;
      QuietExec(u, acts, scripts, path);
      LaterExec(u, acts, scripts);
      forall i: nat ensures !StartedBetween(s, t, path, i) {}
    } else {
      ChangeIsFollowed(s, scripts, path, acts);
    }
  }

  /** Such a loss happens: a change while the script runs, and the script never starts again. */
  lemma ChangeCanBeLost()
    ensures var scripts: Scripts := map["d" := "s"];
            var before := [Notify("d"), Tick(TEN_SECONDS), Fire(0)];
            && Run(Init, before, scripts)
            && ScriptRuns(Exec(Init, before, scripts), "d")
            && Run(Exec(Init, before, scripts), [Notify("d"), Finish(0)], scripts)
            && |Exec(Exec(Init, before, scripts), [Notify("d"), Finish(0)], scripts).jobs| == 1
            && "d" !in Exec(Exec(Init, before, scripts), [Notify("d"), Finish(0)], scripts).eventMap
  {
    var scripts: Scripts := map["d" := "s"];
    var before := [Notify("d"), Tick(TEN_SECONDS), Fire(0)];
    RunThree(Init, before[0], before[1], before[2], scripts);
    var s := Exec(Init, before, scripts);
    assert s.jobs[0].phase == Running;
    RunTwo(s, Notify("d"), Finish(0), scripts);
  }

  /** A path without a script is in the map for ever, from its first change on, and nothing is started for it. */
  lemma UnscriptedStays(acts: seq<Action>, scripts: Scripts, path: string)
    requires Run(Init, acts, scripts) && (path !in scripts || scripts[path] == "")
    ensures var s := Exec(Init, acts, scripts);
            && (path in s.eventMap <==> Notify(path) in acts)
            && forall i :: 0 <= i < |s.jobs| ==> s.jobs[i].path != path
  {
    UnscriptedExec(Init, acts, scripts, path);
  }

  lemma {:induction false} UnscriptedExec(s: State, acts: seq<Action>, scripts: Scripts, path: string)
    requires Inv(s, scripts) && Run(s, acts, scripts) && !Scripted(scripts, path)
    ensures var t := Exec(s, acts, scripts);
            && (path in t.eventMap <==> path in s.eventMap || Notify(path) in acts)
            && forall i :: 0 <= i < |t.jobs| ==> t.jobs[i].path != path
    decreases |acts|
  {
    if acts != [] {
      var u := Step(s, acts[0], scripts);
      InvStep(s, acts[0], scripts);
      UnscriptedExec(u, acts[1..], scripts, path);
      assert acts == [acts[0]] + acts[1..];
    }
  }

  /**
   A script given for a directory never runs for the files in it: their changes carry their own
   names, so that of the directory's name there is none.
   */
  lemma DirectoryScriptNeverRuns(acts: seq<Action>, dir: string, script: string)
    requires Run(Init, acts, map[dir := script])
    requires forall a :: a in acts && a.Notify? ==> FileBelow(dir, a.path)
    ensures Exec(Init, acts, map[dir := script]).jobs == []
  {
    var scripts: Scripts := map[dir := script];
    InvExec(Init, acts, scripts);
    var jobs := Exec(Init, acts, scripts).jobs;
    if jobs != [] {
      assert Scripted(scripts, jobs[0].path);
      JobsWereNotified(Init, acts, scripts, 0);
    }
  }

  /** The name under which a change of a file in a watched directory is reported. */
  ghost predicate FileBelow(dir: string, path: string) {
    exists file: string :: path == dir + "/" + file
  }

  lemma {:induction false} JobsWereNotified(s: State, acts: seq<Action>, scripts: Scripts, i: nat)
    requires Run(s, acts, scripts) && |s.jobs| <= i < |Exec(s, acts, scripts).jobs|
    ensures Notify(Exec(s, acts, scripts).jobs[i].path) in acts
    decreases |acts|
  {
    if acts != [] {
      var t := Step(s, acts[0], scripts);
      assert acts == [acts[0]] + acts[1..];
      if i < |t.jobs| {
        LaterExec(t, acts[1..], scripts);
      } else {
        JobsWereNotified(t, acts[1..], scripts, i);
      }
    }
  }

  lemma RunTwo(s: State, a: Action, b: Action, scripts: Scripts)
    requires Enabled(s, a) && Enabled(Step(s, a, scripts), b)
    ensures Run(s, [a, b], scripts) && Exec(s, [a, b], scripts) == Step(Step(s, a, scripts), b, scripts)
  {
    var t := Step(s, a, scripts);
    assert [a, b][1..] == [b] && [b][1..] == [];
    assert Run(t, [b], scripts) && Exec(t, [b], scripts) == Step(t, b, scripts);
  }

  lemma RunThree(s: State, a: Action, b: Action, c: Action, scripts: Scripts)
    requires Enabled(s, a) && Enabled(Step(s, a, scripts), b) && Enabled(Step(Step(s, a, scripts), b, scripts), c)
    ensures Run(s, [a, b, c], scripts)
    ensures Exec(s, [a, b, c], scripts) == Step(Step(Step(s, a, scripts), b, scripts), c, scripts)
  {
    assert [a, b, c][1..] == [b, c];
    RunTwo(Step(s, a, scripts), b, c, scripts);
  }
}

module Debounce {
  import opened DebounceSpec

  /** The event hook with its map, and the goroutines it has started. */
  class EventHook {
    const scripts: Scripts
    var eventMap: set<string>
    var jobs: seq<Job>
    var now: nat

    ghost function Current(): State
      reads this
    {
      State(eventMap, jobs, now)
    }

    ghost predicate Valid()
      reads this
    {
      Inv(Current(), scripts)
    }

    constructor (scripts: Scripts)
      ensures Valid() && this.scripts == scripts && Current() == Init
    {
      this.scripts, eventMap, jobs, now := scripts, {}, [], 0;
    }

    /** The hook itself, called by the event loop. */
    method OnEvent(name: string)
      requires Valid()
      modifies this
      ensures Valid() && Current() == Step(old(Current()), Notify(name), scripts)
    {
      InvStep(Current(), Notify(name), scripts);
      if name in eventMap {
        return;
      }
      eventMap := eventMap + {name};
      var script := if name in scripts then scripts[name] else "";
      if script != "" {
        jobs := jobs + [Job(name, now, Waiting, 0, 0)];
      }
    }

    /** Time passes. */
    method Elapse(d: nat)
      requires Valid()
      modifies this`now
      ensures Valid() && Current() == Step(old(Current()), Tick(d), scripts)
    {
      InvStep(Current(), Tick(d), scripts);
      now := now + d;
    }

    /** The timer of goroutine `i` has run down: its script starts. */
    method StartScript(i: nat)
      requires Valid() && Enabled(Current(), Fire(i))
      modifies this`jobs
      ensures Valid() && Current() == Step(old(Current()), Fire(i), scripts)
    {
      InvStep(Current(), Fire(i), scripts);
      jobs := jobs[i := jobs[i].(phase := Running, start := now)];
    }

    /** The script of goroutine `i` has ended: the path leaves the map. */
    method EndScript(i: nat)
      requires Valid() && Enabled(Current(), Finish(i))
      modifies this`jobs, this`eventMap
      ensures Valid() && Current() == Step(old(Current()), Finish(i), scripts)
    {
      InvStep(Current(), Finish(i), scripts);
      eventMap := eventMap - {jobs[i].path};
      jobs := jobs[i := jobs[i].(phase := Done, end := now)];
    }
  }
}

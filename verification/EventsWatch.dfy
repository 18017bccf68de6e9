/**
 The durable event listener: any number of listener processes that start, crash, fail and
 restart on one cursor file, its lock, and what has been handled by then.
 */
module EventsWatch {
  import opened Wrappers

  /** What a checkpoint is bound to: the host and the credential. */
  type Identity = string

  /** The events an identity can see: at each occupied position, its type. */
  type Log = map<nat, string>

  datatype Checkpoint = Checkpoint(binding: Identity, cursor: nat)

  predicate IsSelected(eventType: string) {
    eventType in {"chat.direct", "chat.mentioned", "approval.updated", "approval.requested"}
  }

  /** The positions of the events after `from` up to `to`, in order. */
  function Positions(log: Log, from: nat, to: nat): (ps: seq<nat>)
    ensures forall p :: p in ps <==> p in log && from < p <= to
  {
    if to <= from then []
    else Positions(log, from, to - 1) + (if to in log then [to] else [])
  }

  lemma {:induction false} PositionsAscend(log: Log, from: nat, to: nat)
    ensures forall i, j :: 0 <= i < j < |Positions(log, from, to)| ==> Positions(log, from, to)[i] < Positions(log, from, to)[j]
  {
    if from < to {
      PositionsAscend(log, from, to - 1);
      var ps := Positions(log, from, to - 1);
      assert forall i :: 0 <= i < |ps| ==> ps[i] in ps;
    }
  }

  // ---------------------------------------------------------------------------
  // Handling one page
  // ---------------------------------------------------------------------------

  /** How far a page gets when some handler calls may fail. */
  function HandledOf(log: Log, positions: seq<nat>, all: bool, succeeds: nat -> bool): (r: (seq<nat>, bool))
    requires forall p :: p in positions ==> p in log
  {
    if positions == [] then ([], true)
    else
      var p := positions[0];
      if !all && !IsSelected(log[p]) then HandledOf(log, positions[1..], all, succeeds)
      else if !succeeds(p) then ([], false)
      else
        var rest := HandledOf(log, positions[1..], all, succeeds);
        ([p] + rest.0, rest.1)
  }

  /** The handle-then-checkpoint loop body, with the cursor file and the handled events as state. */
  class Listener {
    const log: Log
    const binding: Identity
    const all: bool
    var file: Option<Checkpoint>
    var handled: seq<nat>

    constructor (log: Log, binding: Identity, all: bool, file: Option<Checkpoint>)
      ensures this.log == log && this.binding == binding && this.all == all && this.file == file && handled == []
    {
      this.log, this.binding, this.all, this.file, handled := log, binding, all, file, [];
    }

    /** One page, whatever events it has; the checkpoint moves only when all of them are handled. */
    method HandlePage(positions: seq<nat>, cursor: nat, succeeds: nat -> bool) returns (ok: bool)
      requires forall p :: p in positions ==> p in log
      modifies this
      ensures var (done, complete) := HandledOf(log, positions, all, succeeds);
        ok == complete && handled == old(handled) + done
      ensures file == if ok then Some(Checkpoint(binding, cursor)) else old(file)
    {
      for i := 0 to |positions|
        invariant file == old(file)
        invariant var (done, complete) := HandledOf(log, positions, all, succeeds);
          var (more, finished) := HandledOf(log, positions[i..], all, succeeds);
          old(handled) + done == handled + more && complete == finished
      {
        var p := positions[i];
        assert positions[i..][1..] == positions[i + 1..];
        if !all && !IsSelected(log[p]) {
          continue;
        }
        if !succeeds(p) {
          return false;
        }
        handled := handled + [p];
      }
      file := Some(Checkpoint(binding, cursor));
      ok := true;
    }
  }

  /** The events a listener is for: all of them, or those of the four types. */
  predicate Wanted(log: Log, p: nat, all: bool)
    requires p in log
  {
    all || log[p] == "chat.direct" || log[p] == "chat.mentioned" || log[p] == "approval.updated" || log[p] == "approval.requested"
  }

  lemma SelectedIsWanted(log: Log, p: nat, all: bool)
    requires p in log
    ensures Wanted(log, p, all) <==> all || IsSelected(log[p])
  {
  }

  function WantedOf(log: Log, positions: seq<nat>, all: bool): seq<nat>
    requires forall p :: p in positions ==> p in log
  {
    if positions == [] then []
    else (if Wanted(log, positions[0], all) then [positions[0]] else []) + WantedOf(log, positions[1..], all)
  }

  /**
   A page is handled up to the first event that is wanted and whose handler fails: exactly the
   wanted events before it, in order. It is complete when there is no such event.
   */
  lemma {:induction false} PageIsExact(log: Log, positions: seq<nat>, all: bool, succeeds: nat -> bool) returns (n: nat)
    requires forall p :: p in positions ==> p in log
    ensures n <= |positions|
    ensures HandledOf(log, positions, all, succeeds) == (WantedOf(log, positions[..n], all), n == |positions|)
    ensures forall i :: 0 <= i < n && Wanted(log, positions[i], all) ==> succeeds(positions[i])
    ensures n < |positions| ==> Wanted(log, positions[n], all) && !succeeds(positions[n])
  {
    if positions == [] {
      n := 0;
      assert positions[..n] == positions;
    } else if Wanted(log, positions[0], all) && !succeeds(positions[0]) {
      SelectedIsWanted(log, positions[0], all);
      n := 0;
      assert HandledOf(log, positions, all, succeeds) == ([], false);
      assert WantedOf(log, positions[..n], all) == [];
    } else {
      SelectedIsWanted(log, positions[0], all);
      var rest := PageIsExact(log, positions[1..], all, succeeds);
      n := rest + 1;
      assert positions[..n] == [positions[0]] + positions[1..][..rest];
      assert WantedOf(log, positions[..n], all)
          == (if Wanted(log, positions[0], all) then [positions[0]] else []) + WantedOf(log, positions[1..][..rest], all);
      assert [] + WantedOf(log, positions[1..][..rest], all) == WantedOf(log, positions[1..][..rest], all);
    }
  }

  // ---------------------------------------------------------------------------
  // All processes on one cursor file
  // ---------------------------------------------------------------------------

  /** A listener process: waiting for a page, or part of the way through one. */
  datatype Process =
    | Watching(binding: Identity, all: bool, after: nat)
    | Handling(binding: Identity, all: bool, after: nat, cursor: nat, next: nat)

  datatype State = State(lock: Option<nat>, processes: map<nat, Process>, file: Option<Checkpoint>, handled: set<(Identity, nat)>)

  datatype Step =
    | Start(pid: nat, binding: Identity, all: bool, after: Option<nat>)
    | Page(pid: nat, cursor: nat)
    | Handle(pid: nat, succeeds: bool)
    | Save(pid: nat, succeeds: bool)
    | Stop(pid: nat)
    | Crash(pid: nat)
    | RemoveLock

  type Logs = Identity -> Log

  function PagePositions(logs: Logs, p: Process): seq<nat>
    requires p.Handling?
  {
    Positions(logs(p.binding), p.after, p.cursor)
  }

  predicate Enabled(logs: Logs, s: State, step: Step) {
    match step
    case Start(pid, _, _, _) => pid !in s.processes
    case Page(pid, _) => pid in s.processes && s.processes[pid].Watching?
    case Handle(pid, _) => pid in s.processes && s.processes[pid].Handling? && s.processes[pid].next < |PagePositions(logs, s.processes[pid])|
    case Save(pid, _) => pid in s.processes && s.processes[pid].Handling? && s.processes[pid].next == |PagePositions(logs, s.processes[pid])|
    case Stop(pid) => pid in s.processes
    case Crash(pid) => pid in s.processes
    case RemoveLock => s.lock.Some? && s.lock.value !in s.processes
  }

  /** A process that ends in its own way removes the lock; one that crashes leaves it. */
  function Ended(s: State, pid: nat): State {
    s.(processes := s.processes - {pid}, lock := None)
  }

  /**
   A lock is only removed by hand when its process is gone, as the error message demands.
   Lost connections are no steps: the process goes on watching from where it was.
   */
  function Perform(logs: Logs, s: State, step: Step): State
    requires Enabled(logs, s, step)
  {
    match step
    case Start(pid, binding, all, after) =>
      if s.lock.Some? then s
      else if s.file.None? then
        var from := if after.Some? then after.value else 0;
        s.(lock := Some(pid), processes := s.processes[pid := Watching(binding, all, from)])
      else if after.Some? || s.file.value.binding != binding then s
      else s.(lock := Some(pid), processes := s.processes[pid := Watching(binding, all, s.file.value.cursor)])
    case Page(pid, cursor) =>
      var p := s.processes[pid];
      if cursor < p.after then Ended(s, pid)
      else s.(processes := s.processes[pid := Handling(p.binding, p.all, p.after, cursor, 0)])
    case Handle(pid, succeeds) =>
      var p := s.processes[pid];
      var position := PagePositions(logs, p)[p.next];
      if !p.all && !IsSelected(logs(p.binding)[position]) then s.(processes := s.processes[pid := p.(next := p.next + 1)])
      else if !succeeds then Ended(s, pid)
      else s.(processes := s.processes[pid := p.(next := p.next + 1)], handled := s.handled + {(p.binding, position)})
    case Save(pid, succeeds) =>
      var p := s.processes[pid];
      if !succeeds then Ended(s, pid)
      else s.(file := Some(Checkpoint(p.binding, p.cursor)), processes := s.processes[pid := Watching(p.binding, p.all, p.cursor)])
    case Stop(pid) => Ended(s, pid)
    case Crash(pid) => s.(processes := s.processes - {pid})
    case RemoveLock => s.(lock := None)
  }

  predicate Initial(s: State) {
    s.lock.None? && s.processes == map[] && s.file.None?
  }

  function Run(logs: Logs, s: State, steps: seq<Step>): Option<State> {
    if steps == [] then Some(s)
    else
      var before := Run(logs, s, steps[..|steps| - 1]);
      if before.Some? && Enabled(logs, before.value, steps[|steps| - 1])
      then Some(Perform(logs, before.value, steps[|steps| - 1]))
      else None
  }

  // ---------------------------------------------------------------------------
  // One page, as a run of steps
  // ---------------------------------------------------------------------------

  /** The steps of a process that handles what is left of its page and saves the cursor if it gets that far. */
  function PageSteps(logs: Logs, p: Process, pid: nat, succeeds: nat -> bool): seq<Step>
    requires p.Handling? && p.next <= |PagePositions(logs, p)|
    decreases |PagePositions(logs, p)| - p.next
  {
    var positions := PagePositions(logs, p);
    if p.next == |positions| then [Save(pid, true)]
    else
      var position := positions[p.next];
      var skipped := !p.all && !IsSelected(logs(p.binding)[position]);
      [Handle(pid, succeeds(position))]
      + if skipped || succeeds(position) then PageSteps(logs, p.(next := p.next + 1), pid, succeeds) else []
  }

  function Marked(binding: Identity, positions: seq<nat>): set<(Identity, nat)> {
    set q | q in positions :: (binding, q)
  }

  /** Running a step first. */
  lemma {:induction false} RunFirst(logs: Logs, s: State, first: Step, rest: seq<Step>)
    requires Enabled(logs, s, first)
    ensures Run(logs, s, [first] + rest) == Run(logs, Perform(logs, s, first), rest)
    decreases |rest|
  {
    hide Enabled, Perform;
    var steps := [first] + rest;
    if rest == [] {
      assert steps[..0] == [];
    } else {
      assert steps[..|steps| - 1] == [first] + rest[..|rest| - 1];
      RunFirst(logs, s, first, rest[..|rest| - 1]);
    }
  }

  lemma RunOne(logs: Logs, s: State, step: Step)
    requires Enabled(logs, s, step)
    ensures Run(logs, s, [step]) == Some(Perform(logs, s, step))
  {
    hide Enabled, Perform;
    RunFirst(logs, s, step, []);
    assert [step] + [] == [step];
  }

  lemma NothingMarked(binding: Identity)
    ensures Marked(binding, []) == {}
  {
  }

  lemma MarkedMore(binding: Identity, position: nat, rest: seq<nat>)
    ensures Marked(binding, [position] + rest) == {(binding, position)} + Marked(binding, rest)
  {
  }

  /**
   The steps of a page do what the loop over it does: the same events are handled, and the
   checkpoint moves, and the process goes on, exactly when the loop gets through.
   */
  lemma {:induction false} PageRunsAsLoop(logs: Logs, s: State, pid: nat, succeeds: nat -> bool)
    requires pid in s.processes && s.processes[pid].Handling? && s.processes[pid].next <= |PagePositions(logs, s.processes[pid])|
    ensures var p := s.processes[pid];
      var (done, complete) := HandledOf(logs(p.binding), PagePositions(logs, p)[p.next..], p.all, succeeds);
      var end := Run(logs, s, PageSteps(logs, p, pid, succeeds));
      && end.Some? && end.value.handled == s.handled + Marked(p.binding, done)
      && end.value.file == (if complete then Some(Checkpoint(p.binding, p.cursor)) else s.file)
      && end.value.processes
           == if complete then s.processes[pid := Watching(p.binding, p.all, p.cursor)] else s.processes - {pid}
    decreases |PagePositions(logs, s.processes[pid])| - s.processes[pid].next
  {
    hide Run, Positions, IsSelected, Marked;
    var p := s.processes[pid];
    var positions := PagePositions(logs, p);
    NothingMarked(p.binding);
    if p.next < |positions| {
      var position := positions[p.next];
      var step := Handle(pid, succeeds(position));
      var t := Perform(logs, s, step);
      assert positions[p.next..][0] == position && positions[p.next..][1..] == positions[p.next + 1..];
      if (!p.all && !IsSelected(logs(p.binding)[position])) || succeeds(position) {
        assert t.processes[pid] == p.(next := p.next + 1);
        PageRunsAsLoop(logs, t, pid, succeeds);
        MarkedMore(p.binding, position, HandledOf(logs(p.binding), positions[p.next + 1..], p.all, succeeds).0);
        RunFirst(logs, s, step, PageSteps(logs, p.(next := p.next + 1), pid, succeeds));
      } else {
        RunOne(logs, s, step);
        assert PageSteps(logs, p, pid, succeeds) == [step];
      }
    } else {
      RunOne(logs, s, Save(pid, true));
      assert positions[p.next..] == [];
    }
  }

  // ---------------------------------------------------------------------------
  // At least once
  // ---------------------------------------------------------------------------

  /** Every event a listener is for between two cursors has been handled. */
  ghost predicate Covered(logs: Logs, binding: Identity, all: bool, from: nat, to: nat, handled: set<(Identity, nat)>) {
    forall p :: p in logs(binding) && from < p <= to && Wanted(logs(binding), p, all) ==> (binding, p) in handled
  }

  /** The part of the page a process has been through. */
  ghost predicate PageProgress(logs: Logs, p: Process, all: bool, handled: set<(Identity, nat)>)
    requires p.Handling?
  {
    var positions := PagePositions(logs, p);
    && p.after <= p.cursor && p.next <= |positions|
    && forall i :: 0 <= i < p.next && Wanted(logs(p.binding), positions[i], all) ==> (p.binding, positions[i]) in handled
  }

  /** With `all`, no process leaves any event out. */
  ghost predicate Inv(logs: Logs, s: State, origin: nat, all: bool) {
    && (forall pid :: pid in s.processes ==> s.lock == Some(pid))
    && (s.file.Some? ==>
          origin <= s.file.value.cursor && Covered(logs, s.file.value.binding, all, origin, s.file.value.cursor, s.handled))
    && (forall pid :: pid in s.processes ==> AtCheckpoint(s, s.processes[pid], origin) && (all ==> s.processes[pid].all))
    && (forall pid :: pid in s.processes && s.processes[pid].Handling? ==> PageProgress(logs, s.processes[pid], all, s.handled))
  }

  /** A process works from the checkpoint on, or from the origin while there is none. */
  predicate AtCheckpoint(s: State, p: Process, origin: nat) {
    if s.file.Some? then p.binding == s.file.value.binding && p.after == s.file.value.cursor else p.after == origin
  }

  /** A start that gets the lock while there is no checkpoint. */
  predicate Originates(s: State, step: Step) {
    step.Start? && s.lock.None? && s.file.None?
  }

  /** Where a listener without a checkpoint starts, after a step. */
  function NextOrigin(s: State, step: Step, origin: nat): nat {
    if Originates(s, step) then (if step.after.Some? then step.after.value else 0) else origin
  }

  lemma SaveCovers(logs: Logs, s: State, pid: nat, origin: nat, all: bool)
    requires Inv(logs, s, origin, all) && Enabled(logs, s, Save(pid, true))
    ensures var p := s.processes[pid];
      origin <= p.cursor && Covered(logs, p.binding, all, origin, p.cursor, s.handled)
  {
    hide Wanted;
  }

  lemma HandleKeeps(logs: Logs, s: State, step: Step, origin: nat, all: bool)
    requires Inv(logs, s, origin, all) && Enabled(logs, s, step) && step.Handle?
    ensures Inv(logs, Perform(logs, s, step), origin, all)
  {
    hide Positions, Wanted, IsSelected;
    var p := s.processes[step.pid];
    SelectedIsWanted(logs(p.binding), PagePositions(logs, p)[p.next], all);
  }

  lemma SaveKeeps(logs: Logs, s: State, step: Step, origin: nat, all: bool)
    requires Inv(logs, s, origin, all) && Enabled(logs, s, step) && step.Save?
    ensures Inv(logs, Perform(logs, s, step), origin, all)
  {
    hide Positions, IsSelected, Covered, PageProgress;
    if step.succeeds {
      SaveCovers(logs, s, step.pid, origin, all);
    }
  }

  lemma StepKeeps(logs: Logs, s: State, step: Step, origin: nat, all: bool)
    requires Inv(logs, s, origin, all) && Enabled(logs, s, step) && (step.Start? && all ==> step.all)
    ensures Inv(logs, Perform(logs, s, step), NextOrigin(s, step, origin), all)
  {
    hide Covered, Positions, IsSelected, PagePositions, Wanted;
    match step
    case Handle(_, _) => HandleKeeps(logs, s, step, origin, all);
    case Save(_, _) => SaveKeeps(logs, s, step, origin, all);
    case _ =>
  }

  /** The origin after a whole run. */
  function OriginOf(logs: Logs, s: State, steps: seq<Step>): nat
    requires Run(logs, s, steps).Some?
  {
    if steps == [] then 0
    else NextOrigin(Run(logs, s, steps[..|steps| - 1]).value, steps[|steps| - 1], OriginOf(logs, s, steps[..|steps| - 1]))
  }

  lemma {:induction false} ReachableInv(logs: Logs, s: State, steps: seq<Step>, all: bool)
    requires Initial(s) && Run(logs, s, steps).Some?
    requires all ==> forall i :: 0 <= i < |steps| && steps[i].Start? ==> steps[i].all
    ensures Inv(logs, Run(logs, s, steps).value, OriginOf(logs, s, steps), all)
  {
    hide Wanted;
    if steps != [] {
      var before := steps[..|steps| - 1];
      ReachableInv(logs, s, before, all);
      StepKeeps(logs, Run(logs, s, before).value, steps[|steps| - 1], OriginOf(logs, s, before), all);
    }
  }

  // ---------------------------------------------------------------------------
  // The first listener
  // ---------------------------------------------------------------------------

  /** The listener that step `k` started, without a checkpoint, is still running after `n` steps. */
  ghost predicate RunsFrom(logs: Logs, s: State, steps: seq<Step>, k: nat, n: nat) {
    && k < n <= |steps| && Run(logs, s, steps[..k]).Some? && Originates(Run(logs, s, steps[..k]).value, steps[k])
    && forall i :: k < i <= n ==>
         Run(logs, s, steps[..i]).Some? && steps[k].pid in Run(logs, s, steps[..i]).value.processes
  }

  /** It runs until step `j`, which writes the first checkpoint. */
  ghost predicate WritesFirst(logs: Logs, s: State, steps: seq<Step>, k: nat, j: nat) {
    && RunsFrom(logs, s, steps, k, j) && j < |steps| && steps[j] == Save(steps[k].pid, true)
    && Run(logs, s, steps[..j]).value.file.None?
  }

  /** The listener of this identity, started behind `after`, that wrote the first checkpoint. */
  ghost predicate IsFirst(logs: Logs, s: State, steps: seq<Step>, k: nat, j: nat, binding: Identity, after: nat) {
    WritesFirst(logs, s, steps, k, j) && Names(steps[k], steps[k].pid, binding, after)
  }

  ghost predicate IsRunning(logs: Logs, s: State, steps: seq<Step>, k: nat, pid: nat, binding: Identity, after: nat) {
    RunsFrom(logs, s, steps, k, |steps|) && Names(steps[k], pid, binding, after)
  }

  predicate Names(step: Step, pid: nat, binding: Identity, after: nat) {
    step.Start? && step.pid == pid && step.binding == binding && after == if step.after.Some? then step.after.value else 0
  }

  /** While there is no checkpoint a listener belongs to the start that set the origin; then that start's listener wrote it first. */
  ghost predicate Traced(logs: Logs, s: State, steps: seq<Step>)
    requires Run(logs, s, steps).Some?
  {
    var t, origin := Run(logs, s, steps).value, OriginOf(logs, s, steps);
    && (t.file.None? ==> forall pid :: pid in t.processes ==>
          exists k: nat :: IsRunning(logs, s, steps, k, pid, t.processes[pid].binding, origin))
    && (t.file.Some? ==> exists k: nat, j: nat :: IsFirst(logs, s, steps, k, j, t.file.value.binding, origin))
  }

  /** What one step does to the listeners and the checkpoint. */
  lemma StepTraces(logs: Logs, u: State, step: Step, origin: nat)
    requires Inv(logs, u, origin, false) && Enabled(logs, u, step)
    ensures var t, next := Perform(logs, u, step), NextOrigin(u, step, origin);
      && (t.file.None? ==> u.file.None? && forall pid :: pid in t.processes ==>
            || (pid in u.processes && t.processes[pid].binding == u.processes[pid].binding && next == origin)
            || (Originates(u, step) && Names(step, pid, t.processes[pid].binding, next)))
      && (u.file.None? && t.file.Some? ==>
            && step == Save(step.pid, true) && step.pid in u.processes
            && t.file.value.binding == u.processes[step.pid].binding && next == origin)
      && (u.file.Some? ==> t.file.Some? && t.file.value.binding == u.file.value.binding && next == origin)
  {
    hide Covered, PageProgress, PagePositions, IsSelected;
  }

  lemma RunExtends(logs: Logs, s: State, before: seq<Step>, step: Step)
    requires Run(logs, s, before + [step]).Some?
    ensures Run(logs, s, before).Some? && Enabled(logs, Run(logs, s, before).value, step)
    ensures Run(logs, s, before + [step]).value == Perform(logs, Run(logs, s, before).value, step)
    ensures OriginOf(logs, s, before + [step]) == NextOrigin(Run(logs, s, before).value, step, OriginOf(logs, s, before))
  {
    hide Enabled, Perform;
    assert (before + [step])[..|before|] == before;
  }

  lemma SamePrefixes(before: seq<Step>, step: Step)
    ensures forall i :: 0 <= i <= |before| ==> (before + [step])[..i] == before[..i]
    ensures (before + [step])[..|before| + 1] == before + [step]
  {
  }

  lemma RunsOn(logs: Logs, s: State, before: seq<Step>, step: Step, k: nat)
    requires RunsFrom(logs, s, before, k, |before|) && Run(logs, s, before + [step]).Some?
    requires before[k].pid in Run(logs, s, before + [step]).value.processes
    ensures RunsFrom(logs, s, before + [step], k, |before + [step]|) && (before + [step])[k] == before[k]
  {
    hide Run;
    SamePrefixes(before, step);
  }

  lemma StillRuns(logs: Logs, s: State, before: seq<Step>, step: Step, k: nat, n: nat)
    requires RunsFrom(logs, s, before, k, n)
    ensures RunsFrom(logs, s, before + [step], k, n) && (before + [step])[k] == before[k]
  {
    hide Run;
    SamePrefixes(before, step);
  }

  lemma StillFirst(logs: Logs, s: State, before: seq<Step>, step: Step, k: nat, j: nat, binding: Identity, after: nat)
    requires IsFirst(logs, s, before, k, j, binding, after)
    ensures IsFirst(logs, s, before + [step], k, j, binding, after)
  {
    hide Run, RunsFrom, Names;
    assert RunsFrom(logs, s, before, k, j) && k < j by { FirstRuns(logs, s, before, k, j, binding, after); }
    StillRuns(logs, s, before, step, k, j);
    SamePrefixes(before, step);
  }

  lemma FirstRuns(logs: Logs, s: State, steps: seq<Step>, k: nat, j: nat, binding: Identity, after: nat)
    requires IsFirst(logs, s, steps, k, j, binding, after)
    ensures RunsFrom(logs, s, steps, k, j) && k < j
  {
  }

  lemma {:induction false} ReachableTraced(logs: Logs, s: State, steps: seq<Step>)
    requires Initial(s) && Run(logs, s, steps).Some?
    ensures Traced(logs, s, steps)
  {
    hide Enabled, Perform, Inv, IsRunning, IsFirst, NextOrigin, OriginOf, Originates;
    if steps != [] {
      var before, step := steps[..|steps| - 1], steps[|steps| - 1];
      assert steps == before + [step];
      ReachableTraced(logs, s, before);
      ReachableInv(logs, s, before, false);
      RunExtends(logs, s, before, step);
      StepTraces(logs, Run(logs, s, before).value, step, OriginOf(logs, s, before));
      TraceExtends(logs, s, before, step);
    }
  }

  lemma TraceExtends(logs: Logs, s: State, before: seq<Step>, step: Step)
    requires Run(logs, s, before + [step]).Some? && Run(logs, s, before).Some? && Traced(logs, s, before)
    requires Inv(logs, Run(logs, s, before).value, OriginOf(logs, s, before), false)
    ensures Traced(logs, s, before + [step])
  {
    hide Enabled, Perform, Inv, Run, NextOrigin, OriginOf, Originates, RunsFrom, WritesFirst, Names, IsFirst, IsRunning;
    var u, t := Run(logs, s, before).value, Run(logs, s, before + [step]).value;
    var origin, next := OriginOf(logs, s, before), OriginOf(logs, s, before + [step]);
    RunExtends(logs, s, before, step);
    StepTraces(logs, u, step, origin);
    if t.file.None? {
      forall pid | pid in t.processes
        ensures exists k: nat :: IsRunning(logs, s, before + [step], k, pid, t.processes[pid].binding, next)
      {
        if pid in u.processes && t.processes[pid].binding == u.processes[pid].binding && next == origin {
          var k: nat :| IsRunning(logs, s, before, k, pid, u.processes[pid].binding, origin);
          RunningStays(logs, s, before, step, k, pid, u.processes[pid].binding, origin);
        } else {
          StartRuns(logs, s, before, step, pid, t.processes[pid].binding, next);
        }
      }
    } else if u.file.None? {
      var k: nat :| IsRunning(logs, s, before, k, step.pid, u.processes[step.pid].binding, origin);
      SaveIsFirst(logs, s, before, step, k, u.processes[step.pid].binding, origin);
    } else {
      var k: nat, j: nat :| IsFirst(logs, s, before, k, j, u.file.value.binding, origin);
      StillFirst(logs, s, before, step, k, j, u.file.value.binding, origin);
    }
  }

  lemma RunningStays(logs: Logs, s: State, before: seq<Step>, step: Step, k: nat, pid: nat, binding: Identity, after: nat)
    requires IsRunning(logs, s, before, k, pid, binding, after) && Run(logs, s, before + [step]).Some?
    requires pid in Run(logs, s, before + [step]).value.processes
    ensures IsRunning(logs, s, before + [step], k, pid, binding, after)
  {
    hide Run, Originates;
    RunsOn(logs, s, before, step, k);
  }

  lemma StartRuns(logs: Logs, s: State, before: seq<Step>, step: Step, pid: nat, binding: Identity, after: nat)
    requires Run(logs, s, before).Some? && Originates(Run(logs, s, before).value, step) && Names(step, pid, binding, after)
    requires Run(logs, s, before + [step]).Some? && pid in Run(logs, s, before + [step]).value.processes
    ensures IsRunning(logs, s, before + [step], |before|, pid, binding, after)
  {
    hide Run, Originates;
    SamePrefixes(before, step);
    assert before[..|before|] == before;
  }

  lemma SaveIsFirst(logs: Logs, s: State, before: seq<Step>, step: Step, k: nat, binding: Identity, after: nat)
    requires Run(logs, s, before).Some? && Run(logs, s, before).value.file.None? && step.Save? && step.succeeds
    requires IsRunning(logs, s, before, k, step.pid, binding, after)
    ensures IsFirst(logs, s, before + [step], k, |before|, binding, after)
  {
    hide Run, Originates;
    SamePrefixes(before, step);
    assert before[..|before|] == before;
    StillRuns(logs, s, before, step, k, |before|);
  }

  /**
   Main result: over every run of crashes, failures, stops and restarts that reaches a
   checkpoint, some start got the lock with no checkpoint there, and its listener wrote the
   first one, for the same identity as the last; and every event of the four types above that
   start's `--after` (0 if it had none), up to the persisted cursor, has been handled. Where
   every listener asked for all events, so has every event.
   */
  lemma AtLeastOnce(logs: Logs, s: State, steps: seq<Step>, all: bool)
    requires Initial(s) && Run(logs, s, steps).Some? && Run(logs, s, steps).value.file.Some?
    requires all ==> forall i :: 0 <= i < |steps| && steps[i].Start? ==> steps[i].all
    ensures var t := Run(logs, s, steps).value;
      exists k: nat, j: nat, after: nat :: IsFirst(logs, s, steps, k, j, t.file.value.binding, after) && AllHandled(logs, t, after, all)
  {
    hide Wanted, WritesFirst, IsFirst;
    ReachableInv(logs, s, steps, all);
    ReachableTraced(logs, s, steps);
    assert AllHandled(logs, Run(logs, s, steps).value, OriginOf(logs, s, steps), all);
  }

  ghost predicate AllHandled(logs: Logs, t: State, after: nat, all: bool)
    requires t.file.Some?
  {
    var binding, log := t.file.value.binding, logs(t.file.value.binding);
    forall p :: p in log && after < p <= t.file.value.cursor && Wanted(log, p, all) ==> (binding, p) in t.handled
  }

  /** Step `i` is a handler that succeeds on this event. */
  ghost predicate Handles(logs: Logs, s: State, steps: seq<Step>, i: nat, event: (Identity, nat)) {
    && i < |steps| && steps[i].Handle? && steps[i].succeeds && Run(logs, s, steps[..i]).Some?
    && var t := Run(logs, s, steps[..i]).value;
      && steps[i].pid in t.processes && t.processes[steps[i].pid].Handling? && t.processes[steps[i].pid].binding == event.0
      && t.processes[steps[i].pid].next < |PagePositions(logs, t.processes[steps[i].pid])|
      && PagePositions(logs, t.processes[steps[i].pid])[t.processes[steps[i].pid].next] == event.1
  }

  /** Nothing counts as handled but what a handler has succeeded on. */
  lemma {:induction false} HandledIsReal(logs: Logs, s: State, steps: seq<Step>, event: (Identity, nat))
    requires Run(logs, s, steps).Some? && event in Run(logs, s, steps).value.handled && event !in s.handled
    ensures exists i: nat :: Handles(logs, s, steps, i, event)
  {
    hide Positions, PagePositions, IsSelected;
    if steps != [] {
      var before, step := steps[..|steps| - 1], steps[|steps| - 1];
      if event in Run(logs, s, before).value.handled {
        HandledIsReal(logs, s, before, event);
        var i: nat :| Handles(logs, s, before, i, event);
        assert before[..i] == steps[..i];
        assert Handles(logs, s, steps, i, event);
      } else {
        assert Handles(logs, s, steps, |before|, event);
      }
    }
  }

  /** A checkpoint, once written, keeps its identity and never moves back. */
  predicate NotBehind(s: State, t: State) {
    s.file.Some? ==>
      t.file.Some? && t.file.value.binding == s.file.value.binding && s.file.value.cursor <= t.file.value.cursor
  }

  lemma {:induction false} CursorNeverMovesBack(logs: Logs, s: State, steps: seq<Step>, k: nat)
    requires Initial(s) && Run(logs, s, steps).Some? && k <= |steps|
    ensures Run(logs, s, steps[..k]).Some? && NotBehind(Run(logs, s, steps[..k]).value, Run(logs, s, steps).value)
  {
    hide Wanted, IsSelected;
    if k == |steps| {
      assert steps[..k] == steps;
    } else {
      var before := steps[..|steps| - 1];
      CursorNeverMovesBack(logs, s, before, k);
      assert before[..k] == steps[..k];
      ReachableInv(logs, s, before, false);
    }
  }

  /** The lock does its work: no two listeners run at once. */
  lemma OneListener(logs: Logs, s: State, steps: seq<Step>, p: nat, q: nat)
    requires Initial(s) && Run(logs, s, steps).Some?
    requires p in Run(logs, s, steps).value.processes && q in Run(logs, s, steps).value.processes
    ensures p == q
  {
    ReachableInv(logs, s, steps, false);
  }

  /**
   A start gets going exactly when the lock is free and there is no checkpoint, or one of the
   same identity and no `--after`; it goes on behind the checkpoint, or else behind `--after`.
   Otherwise it changes nothing.
   */
  lemma StartIsExact(logs: Logs, s: State, step: Step)
    requires step.Start? && Enabled(logs, s, step)
    ensures var t := Perform(logs, s, step);
      var starts := s.lock == None && (s.file == None || (step.after == None && s.file.value.binding == step.binding));
      && (!starts ==> t == s)
      && (starts ==>
            && t.lock == Some(step.pid) && t.file == s.file && t.handled == s.handled
            && t.processes
                 == s.processes[step.pid := Watching(step.binding, step.all,
                                                     if s.file.Some? then s.file.value.cursor
                                                     else if step.after.Some? then step.after.value else 0)])
  {
  }

  /** A listener that ends in any way but a crash lets the next one start; behind a crash the lock has to go first. */
  lemma RestartIsExact(logs: Logs, s: State, step: Step, start: Step)
    requires !step.Start? && step != RemoveLock && Enabled(logs, s, step) && s.lock == Some(step.pid)
    requires start.Start? && Enabled(logs, s, start) && start.after == None
    requires s.file.Some? ==> s.file.value.binding == start.binding
    ensures var t := Perform(logs, s, step);
      step.pid !in t.processes ==>
        && Enabled(logs, t, start)
        && (start.pid in Perform(logs, t, start).processes <==> !step.Crash?)
        && (step.Crash? ==> Enabled(logs, t, RemoveLock) && start.pid in Perform(logs, Perform(logs, t, RemoveLock), start).processes)
  {
    hide Positions, IsSelected;
  }
}

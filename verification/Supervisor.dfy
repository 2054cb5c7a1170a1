/** The process supervisor: it starts the programs of its list and, once a second, looks which of
    them have died. What the system answers is given from outside, so programs may die at any time. */
module Supervisor {
  import opened Strings

  datatype Mode = RERUN | REBOOT | ONCE

  datatype Program = Program(pid: int, mode: Mode, path: string, param: seq<string>)

  datatype Signal = SIGTERM | SIGUSR1

  /** What the supervisor asks of the system, by place in the list. */
  datatype Action = Started(index: nat, pid: int) | Signalled(index: nat, signal: Signal)

  datatype State = State(programs: seq<Program>, needReboot: bool, exited: bool, log: seq<Action>)

  /** The system's answers in one pass: whether program `i` runs when it is looked at, what a fork
      for it returns to the parent, and whether it runs when a signal is about to be sent. */
  datatype Answers = Answers(alive: seq<bool>, forks: seq<int>, running: seq<bool>) {
    predicate For(n: nat) {
      && |alive| == n && |forks| == n && |running| == n
      && forall i :: 0 <= i < n ==> forks[i] != 0
    }
  }

  function Start(s: State, i: nat, fork: int): State
    requires i < |s.programs|
  {
    var programs := s.programs[i := s.programs[i].(pid := fork)];
    if fork < 0 then State(programs, s.needReboot, true, s.log)
    else State(programs, s.needReboot, s.exited, s.log + [Started(i, fork)])
  }

  /** One signal to each of the first `k` programs that runs. */
  function Signals(running: seq<bool>, signal: Signal, k: nat): seq<Action>
    requires k <= |running|
  {
    if k == 0 then []
    else Signals(running, signal, k - 1) + if running[k - 1] then [Signalled(k - 1, signal)] else []
  }

  function Rebooted(s: State, running: seq<bool>): State {
    State(s.programs, true, s.exited, s.log + Signals(running, SIGTERM, |running|))
  }

  datatype Progress = Progress(state: State, stopped: bool)

  function Look(s: State, a: Answers, i: nat): Progress
    requires i < |s.programs| && a.For(|s.programs|)
  {
    if a.alive[i] then Progress(s, false)
    else match s.programs[i].mode
      case REBOOT => Progress(Rebooted(s, a.running), true)
      case RERUN => Progress(Start(s, i, a.forks[i]), a.forks[i] < 0)
      case ONCE => Progress(s, false)
  }

  /** The pass once the first `k` programs have been looked at. */
  function Scanned(s: State, a: Answers, k: nat): (p: Progress)
    requires k <= |s.programs| && a.For(|s.programs|)
    ensures |p.state.programs| == |s.programs|
    decreases k
  {
    if k == 0 then Progress(s, false)
    else
      var before := Scanned(s, a, k - 1);
      if before.stopped then before else Look(before.state, a, k - 1)
  }

  function Watched(s: State, a: Answers): State
    requires a.For(|s.programs|)
  {
    Scanned(s, a, |s.programs|).state
  }

  /** The first `k` programs started, up to a fork that fails. */
  function Launched(s: State, forks: seq<int>, k: nat): (t: State)
    requires k <= |s.programs| == |forks|
    ensures |t.programs| == |s.programs|
    decreases k
  {
    if k == 0 then s
    else
      var before := Launched(s, forks, k - 1);
      if before.exited then before else Start(before, k - 1, forks[k - 1])
  }

  // ---- The configuration file ----

  const MAX_PARAMS := 50

  /** One line: a mode, a path and parameters, apart by blanks, '=' or ','. Other lines are skipped. */
  function ParseLine(line: string): seq<Program> {
    var tokens := Kept(Pieces(line, " =,"), true);
    if |tokens| < 2 then []
    else
      var param := if |tokens| - 2 <= MAX_PARAMS then tokens[2..] else tokens[2..2 + MAX_PARAMS];
      if tokens[0] == "reboot" then [Program(-1, REBOOT, tokens[1], param)]
      else if tokens[0] == "rerun" then [Program(-1, RERUN, tokens[1], param)]
      else if tokens[0] == "once" then [Program(-1, ONCE, tokens[1], param)]
      else []
  }

  function ParseLines(lines: seq<string>): seq<Program> {
    if lines == [] then [] else ParseLines(lines[..|lines| - 1]) + ParseLine(lines[|lines| - 1])
  }

  /** The files that can be opened, by name. */
  type Files = map<string, seq<string>>

  function ReadConfig(files: Files, name: string): seq<Program> {
    if name in files then ParseLines(files[name]) else []
  }

  /** A line made of tokens apart by any number of separators, read back: the mode by its name, the
      path, and up to fifty parameters. */
  lemma LineRead(tokens: seq<string>, gaps: seq<string>)
    requires |gaps| == |tokens| && AllTokens(tokens, " =,") && AllGaps(gaps, " =,")
    ensures |tokens| < 2 ==> ParseLine(Laid(tokens, gaps)) == []
    ensures |tokens| >= 2 ==>
              var param := if |tokens| <= 52 then tokens[2..] else tokens[2..52];
              ParseLine(Laid(tokens, gaps))
              == if tokens[0] == "reboot" then [Program(-1, REBOOT, tokens[1], param)]
                 else if tokens[0] == "rerun" then [Program(-1, RERUN, tokens[1], param)]
                 else if tokens[0] == "once" then [Program(-1, ONCE, tokens[1], param)]
                 else []
  {
    hide Pieces, Kept, Laid;
    LaidTokens(tokens, gaps, " =,");
  }

  // ---- The code ----

  class ProgramWatch {
    var needReboot: bool
    var configFileName: string
    var programs: seq<Program>
    var exited: bool
    var log: seq<Action>

    ghost function Current(): State
      reads this
    {
      State(programs, needReboot, exited, log)
    }

    /** The list is read here, from the name the object has at this point: the empty one. */
    constructor (files: Files)
      ensures Current() == State(ReadConfig(files, ""), false, false, []) && configFileName == ""
    {
      configFileName := "";
      programs := ReadConfig(files, "");
      needReboot := false;
      exited := false;
      log := [];
    }

    method SetConfigFilePath(configPath: string)
      modifies this`configFileName
      ensures configFileName == configPath
    {
      configFileName := configPath;
    }

    /** In the parent: a failed fork ends the supervisor. */
    method StartProgram(i: nat, fork: int)
      requires i < |programs| && fork != 0 && !exited
      modifies this`programs, this`exited, this`log
      ensures Current() == Start(old(Current()), i, fork)
    {
      programs := programs[i := programs[i].(pid := fork)];
      if fork < 0 {
        exited := true;
      } else {
        log := log + [Started(i, fork)];
      }
    }

    method Run(forks: seq<int>)
      requires !exited && |forks| == |programs| && forall i :: 0 <= i < |forks| ==> forks[i] != 0
      modifies this`programs, this`exited, this`log
      ensures Current() == Launched(old(Current()), forks, |old(programs)|)
    {
      hide Start;
      var i := 0;
      while i < |programs|
        invariant i <= |programs| == |old(programs)| && !exited
        invariant Current() == Launched(old(Current()), forks, i)
      {
        StartProgram(i, forks[i]);
        StartSize(Launched(old(Current()), forks, i), i, forks[i]);
        i := i + 1;
        if exited {
          LaunchStops(old(Current()), forks, i);
          return;
        }
      }
    }

    method SendSignal(running: seq<bool>)
      requires |running| == |programs| && !exited
      modifies this`log
      ensures Current() == old(Current()).(log := old(log) + Signals(running, SIGUSR1, |running|))
      ensures forall i :: 0 <= i < |running| ==>
                SignalCount(log, i, SIGUSR1) == SignalCount(old(log), i, SIGUSR1) + if running[i] then 1 else 0
    {
      hide SignalCount, StartCount;
      forall i | 0 <= i < |running|
        ensures SignalCount(log + Signals(running, SIGUSR1, |running|), i, SIGUSR1)
             == SignalCount(log, i, SIGUSR1) + if running[i] then 1 else 0
      {
        SignalsCount(running, SIGUSR1, |running|, i, SIGUSR1);
        CountsConcat(log, Signals(running, SIGUSR1, |running|), i, SIGUSR1);
      }
      for i := 0 to |programs|
        invariant Current() == old(Current()).(log := old(log) + Signals(running, SIGUSR1, i))
      {
        if running[i] {
          log := log + [Signalled(i, SIGUSR1)];
        }
      }
    }

    method RebootSystem(running: seq<bool>)
      requires |running| == |programs| && !exited
      modifies this`log, this`needReboot
      ensures Current() == Rebooted(old(Current()), running)
    {
      for i := 0 to |programs|
        invariant Current() == old(Current()).(log := old(log) + Signals(running, SIGTERM, i))
      {
        if running[i] {
          log := log + [Signalled(i, SIGTERM)];
        }
      }
      needReboot := true;
    }

    method Watch(a: Answers)
      requires a.For(|programs|) && !exited
      modifies this`programs, this`exited, this`log, this`needReboot
      ensures Current() == Watched(old(Current()), a)
    {
      hide Start, Rebooted;
      var i := 0;
      while i < |programs|
        invariant i <= |programs| == |old(programs)| && !exited
        invariant Scanned(old(Current()), a, i) == Progress(Current(), false)
      {
        if !a.alive[i] {
          if programs[i].mode == REBOOT {
            RebootSystem(a.running);
            ScanStops(old(Current()), a, i + 1);
            return;
          } else if programs[i].mode == RERUN {
            StartProgram(i, a.forks[i]);
            StartSize(Scanned(old(Current()), a, i).state, i, a.forks[i]);
            if exited {
              ScanStops(old(Current()), a, i + 1);
              return;
            }
          } else if programs[i].mode == ONCE {
          }
        }
        i := i + 1;
      }
    }
  }

  // ---- Where the loops stop ----

  lemma {:induction false} LaunchStops(s: State, forks: seq<int>, k: nat)
    requires k <= |s.programs| == |forks| && Launched(s, forks, k).exited
    ensures Launched(s, forks, |forks|) == Launched(s, forks, k)
    decreases |forks| - k
  {
    if k < |forks| { LaunchStops(s, forks, k + 1); }
  }

  lemma {:induction false} ScanStops(s: State, a: Answers, k: nat)
    requires k <= |s.programs| && a.For(|s.programs|) && Scanned(s, a, k).stopped
    ensures Scanned(s, a, |s.programs|) == Scanned(s, a, k)
    decreases |s.programs| - k
  {
    if k < |s.programs| { ScanStops(s, a, k + 1); }
  }

  lemma StartSize(s: State, i: nat, fork: int)
    requires i < |s.programs|
    ensures |Start(s, i, fork).programs| == |s.programs|
    ensures !s.exited ==> (Start(s, i, fork).exited <==> fork < 0)
  {
  }

  // ---- What one pass does ----

  function Modes(programs: seq<Program>): (modes: seq<Mode>)
    ensures |modes| == |programs|
  {
    seq(|programs|, i requires 0 <= i < |programs| => programs[i].mode)
  }

  predicate Dead(modes: seq<Mode>, a: Answers, i: nat, mode: Mode)
    requires i < |modes| && a.For(|modes|)
  {
    !a.alive[i] && modes[i] == mode
  }

  /** Where a pass ends early: at a dead program that calls for a reboot, or at a fork that fails. */
  predicate Stops(modes: seq<Mode>, a: Answers, i: nat)
    requires i < |modes| && a.For(|modes|)
  {
    Dead(modes, a, i, REBOOT) || (Dead(modes, a, i, RERUN) && a.forks[i] < 0)
  }

  function FirstStop(modes: seq<Mode>, a: Answers, from: nat): (f: nat)
    requires from <= |modes| && a.For(|modes|)
    ensures from <= f <= |modes|
    ensures f < |modes| ==> Stops(modes, a, f)
    ensures forall i :: from <= i < f ==> !Stops(modes, a, i)
    decreases |modes| - from
  {
    if from == |modes| || Stops(modes, a, from) then from else FirstStop(modes, a, from + 1)
  }

  /** The restarts among the first `k` programs, in order. */
  function Restarts(modes: seq<Mode>, a: Answers, k: nat): seq<Action>
    requires k <= |modes| && a.For(|modes|)
  {
    if k == 0 then []
    else Restarts(modes, a, k - 1) + if Dead(modes, a, k - 1, RERUN) then [Started(k - 1, a.forks[k - 1])] else []
  }

  function Restarted(programs: seq<Program>, a: Answers, k: nat): (r: seq<Program>)
    requires k <= |programs| && a.For(|programs|)
    ensures |r| == |programs|
  {
    seq(|programs|, i requires 0 <= i < |programs| =>
      if i < k && Dead(Modes(programs), a, i, RERUN) then programs[i].(pid := a.forks[i]) else programs[i])
  }

  lemma {:induction false} CleanScan(s: State, a: Answers, k: nat)
    requires k <= |s.programs| && a.For(|s.programs|)
    requires forall i :: 0 <= i < k ==> !Stops(Modes(s.programs), a, i)
    ensures Scanned(s, a, k)
         == Progress(State(Restarted(s.programs, a, k), s.needReboot, s.exited,
                           s.log + Restarts(Modes(s.programs), a, k)), false)
    decreases k
  {
    if k == 0 {
      assert Restarted(s.programs, a, 0) == s.programs;
    } else {
      CleanScan(s, a, k - 1);
      CleanLook(s, a, k - 1);
    }
  }

  lemma CleanLook(s: State, a: Answers, i: nat)
    requires i < |s.programs| && a.For(|s.programs|) && !Stops(Modes(s.programs), a, i)
    ensures Look(State(Restarted(s.programs, a, i), s.needReboot, s.exited,
                       s.log + Restarts(Modes(s.programs), a, i)), a, i)
         == Progress(State(Restarted(s.programs, a, i + 1), s.needReboot, s.exited,
                           s.log + Restarts(Modes(s.programs), a, i + 1)), false)
  {
    var before, after := Restarted(s.programs, a, i), Restarted(s.programs, a, i + 1);
    if Dead(Modes(s.programs), a, i, RERUN) {
      assert after == before[i := before[i].(pid := a.forks[i])];
    } else {
      assert after == before;
    }
  }

  /** The state a pass leaves, told from what it met. With no early stop every dead program to be
      rerun is restarted in order and nothing else happens. A dead program that calls for a reboot
      sets the flag and sends SIGTERM to every running program; those behind it are not restarted. */
  lemma WatchOutcome(s: State, a: Answers)
    requires a.For(|s.programs|) && !s.exited
    ensures var modes := Modes(s.programs);
      var f := FirstStop(modes, a, 0);
      && (f == |modes| ==>
          Watched(s, a) == State(Restarted(s.programs, a, f), s.needReboot, false, s.log + Restarts(modes, a, f)))
      && (f < |modes| && modes[f] == REBOOT ==>
          Watched(s, a) == State(Restarted(s.programs, a, f), true, false,
                                 s.log + Restarts(modes, a, f) + Signals(a.running, SIGTERM, |modes|)))
      && (f < |modes| && modes[f] == RERUN ==>
          && Watched(s, a).exited && Watched(s, a).needReboot == s.needReboot
          && Watched(s, a).log == s.log + Restarts(modes, a, f))
      && Modes(Watched(s, a).programs) == modes
  {
    hide Scanned;
    var modes := Modes(s.programs);
    var f := FirstStop(modes, a, 0);
    CleanScan(s, a, f);
    if f < |modes| {
      assert Restarted(s.programs, a, f)[f] == s.programs[f];
      ScanNext(s, a, f);
      ScanStops(s, a, f + 1);
    }
  }

  lemma ScanNext(s: State, a: Answers, k: nat)
    requires k < |s.programs| && a.For(|s.programs|) && !Scanned(s, a, k).stopped
    ensures Scanned(s, a, k + 1) == Look(Scanned(s, a, k).state, a, k)
  {
  }

  // ---- Counting starts and signals ----

  function StartCount(log: seq<Action>, i: nat): nat {
    if log == [] then 0
    else
      var last := log[|log| - 1];
      StartCount(log[..|log| - 1], i) + if last.Started? && last.index == i then 1 else 0
  }

  function SignalCount(log: seq<Action>, i: nat, kind: Signal): nat {
    if log == [] then 0
    else
      var last := log[|log| - 1];
      SignalCount(log[..|log| - 1], i, kind)
      + if last.Signalled? && last.index == i && last.signal == kind then 1 else 0
  }

  lemma {:induction false} CountsConcat(a: seq<Action>, b: seq<Action>, i: nat, kind: Signal)
    ensures StartCount(a + b, i) == StartCount(a, i) + StartCount(b, i)
    ensures SignalCount(a + b, i, kind) == SignalCount(a, i, kind) + SignalCount(b, i, kind)
    decreases |b|
  {
    if b == [] {
      assert a + b == a;
    } else {
      CountsConcat(a, b[..|b| - 1], i, kind);
      assert (a + b)[..|a + b| - 1] == a + b[..|b| - 1];
    }
  }

  lemma NoCount(i: nat, kind: Signal)
    ensures StartCount([], i) == 0 && SignalCount([], i, kind) == 0
  {
  }

  lemma OneCount(a: Action, i: nat, kind: Signal)
    ensures StartCount([a], i) == if a.Started? && a.index == i then 1 else 0
    ensures SignalCount([a], i, kind) == if a.Signalled? && a.index == i && a.signal == kind then 1 else 0
  {
    assert [a][..0] == [];
  }

  /** Each dead program to be rerun is started exactly once, and no other program is. */
  lemma {:induction false} RestartsCount(modes: seq<Mode>, a: Answers, k: nat, i: nat, kind: Signal)
    requires k <= |modes| && a.For(|modes|)
    ensures StartCount(Restarts(modes, a, k), i) == if i < k && Dead(modes, a, i, RERUN) then 1 else 0
    ensures SignalCount(Restarts(modes, a, k), i, kind) == 0
    decreases k
  {
    hide StartCount, SignalCount, Dead;
    NoCount(i, kind);
    if k > 0 {
      RestartsCount(modes, a, k - 1, i, kind);
      if Dead(modes, a, k - 1, RERUN) {
        var last := Started(k - 1, a.forks[k - 1]);
        CountsConcat(Restarts(modes, a, k - 1), [last], i, kind);
        OneCount(last, i, kind);
      } else {
        assert Restarts(modes, a, k) == Restarts(modes, a, k - 1);
      }
    }
  }

  /** Each running program gets exactly one signal, of the kind asked for, and nothing is started. */
  lemma {:induction false} SignalsCount(running: seq<bool>, signal: Signal, k: nat, i: nat, kind: Signal)
    requires k <= |running|
    ensures SignalCount(Signals(running, signal, k), i, kind)
         == if i < k && running[i] && kind == signal then 1 else 0
    ensures StartCount(Signals(running, signal, k), i) == 0
    decreases k
  {
    hide StartCount, SignalCount;
    NoCount(i, kind);
    if k > 0 {
      SignalsCount(running, signal, k - 1, i, kind);
      if running[k - 1] {
        CountsConcat(Signals(running, signal, k - 1), [Signalled(k - 1, signal)], i, kind);
        OneCount(Signalled(k - 1, signal), i, kind);
      } else {
        assert Signals(running, signal, k) == Signals(running, signal, k - 1);
      }
    }
  }

  // ---- Whole runs ----

  predicate AllFor(passes: seq<Answers>, n: nat) {
    forall j :: 0 <= j < |passes| ==> passes[j].For(n)
  }

  /** The state after a run of passes; a supervisor that has exited does nothing more. */
  function After(s: State, passes: seq<Answers>): (t: State)
    requires AllFor(passes, |s.programs|)
    ensures |t.programs| == |s.programs|
  {
    if passes == [] then s
    else
      var before := After(s, passes[..|passes| - 1]);
      if before.exited then before else Watched(before, passes[|passes| - 1])
  }

  /** A pass of a run starts program `i`: it is to be rerun, is found dead, and the pass gets that far. */
  predicate StartsIt(modes: seq<Mode>, a: Answers, i: nat)
    requires i < |modes| && a.For(|modes|)
  {
    Dead(modes, a, i, RERUN) && i < FirstStop(modes, a, 0)
  }

  predicate Reboots(modes: seq<Mode>, a: Answers)
    requires a.For(|modes|)
  {
    var f := FirstStop(modes, a, 0);
    f < |modes| && modes[f] == REBOOT
  }

  function StartingPasses(s: State, passes: seq<Answers>, i: nat): nat
    requires AllFor(passes, |s.programs|) && i < |s.programs|
  {
    if passes == [] then 0
    else
      var before := passes[..|passes| - 1];
      StartingPasses(s, before, i)
      + if !After(s, before).exited && StartsIt(Modes(s.programs), passes[|passes| - 1], i) then 1 else 0
  }

  function TermPasses(s: State, passes: seq<Answers>, i: nat): nat
    requires AllFor(passes, |s.programs|) && i < |s.programs|
  {
    if passes == [] then 0
    else
      var before, last := passes[..|passes| - 1], passes[|passes| - 1];
      TermPasses(s, before, i)
      + if !After(s, before).exited && Reboots(Modes(s.programs), last) && last.running[i] then 1 else 0
  }

  predicate RebootsAt(s: State, passes: seq<Answers>, j: nat)
    requires AllFor(passes, |s.programs|) && j < |passes|
  {
    Reboots(Modes(s.programs), passes[j]) && !After(s, passes[..j]).exited
  }

  predicate SomeReboot(s: State, passes: seq<Answers>)
    requires AllFor(passes, |s.programs|)
  {
    exists j :: 0 <= j < |passes| && RebootsAt(s, passes, j)
  }

  lemma SomeRebootStep(s: State, passes: seq<Answers>)
    requires AllFor(passes, |s.programs|) && passes != []
    ensures SomeReboot(s, passes)
       <==> SomeReboot(s, passes[..|passes| - 1]) || RebootsAt(s, passes, |passes| - 1)
  {
    hide After, Modes, Reboots;
    var n := |passes| - 1;
    var before := passes[..n];
    forall j | 0 <= j < n ensures RebootsAt(s, before, j) <==> RebootsAt(s, passes, j) {
      assert before[j] == passes[j] && before[..j] == passes[..j];
    }
  }

  lemma PassCounts(s: State, a: Answers, i: nat, kind: Signal)
    requires a.For(|s.programs|) && !s.exited && i < |s.programs|
    ensures var modes := Modes(s.programs);
      && Modes(Watched(s, a).programs) == modes
      && StartCount(Watched(s, a).log, i) == StartCount(s.log, i) + (if StartsIt(modes, a, i) then 1 else 0)
      && SignalCount(Watched(s, a).log, i, kind)
         == SignalCount(s.log, i, kind) + (if kind == SIGTERM && Reboots(modes, a) && a.running[i] then 1 else 0)
      && (Watched(s, a).needReboot <==> s.needReboot || Reboots(modes, a))
  {
    hide Watched, Restarts, Signals, Restarted, StartCount, SignalCount, Modes;
    WatchOutcome(s, a);
    var modes := Modes(s.programs);
    var f := FirstStop(modes, a, 0);
    RestartsCount(modes, a, f, i, kind);
    CountsConcat(s.log, Restarts(modes, a, f), i, kind);
    SignalsCount(a.running, SIGTERM, |modes|, i, kind);
    CountsConcat(s.log + Restarts(modes, a, f), Signals(a.running, SIGTERM, |modes|), i, kind);
  }

  /** Over every run: a program is started once for each pass that reaches it dead and to be rerun,
      and gets SIGTERM once for each rebooting pass in which it still runs, and no other signal. */
  lemma {:induction false} RunCounts(s: State, passes: seq<Answers>, i: nat, kind: Signal)
    requires AllFor(passes, |s.programs|) && i < |s.programs|
    ensures StartCount(After(s, passes).log, i) == StartCount(s.log, i) + StartingPasses(s, passes, i)
    ensures SignalCount(After(s, passes).log, i, kind)
         == SignalCount(s.log, i, kind) + if kind == SIGTERM then TermPasses(s, passes, i) else 0
    ensures Modes(After(s, passes).programs) == Modes(s.programs)
    decreases |passes|
  {
    hide Watched, StartCount, SignalCount, Modes, StartsIt, Reboots;
    if passes != [] {
      var before := passes[..|passes| - 1];
      RunCounts(s, before, i, kind);
      if !After(s, before).exited { PassCounts(After(s, before), passes[|passes| - 1], i, kind); }
    }
  }

  lemma NoPassNoReboot(s: State)
    ensures !SomeReboot(s, [])
  {
  }

  /** The reboot flag is set exactly when some pass met a dead program that calls for it; it is never taken back. */
  lemma {:induction false} NeedRebootIff(s: State, passes: seq<Answers>)
    requires AllFor(passes, |s.programs|) && s.programs != []
    ensures After(s, passes).needReboot <==> s.needReboot || SomeReboot(s, passes)
    decreases |passes|
  {
    hide Watched, StartCount, SignalCount, Modes, StartsIt, Reboots, SomeReboot;
    NoPassNoReboot(s);
    if passes != [] {
      var n := |passes| - 1;
      var before, last := passes[..n], passes[n];
      NeedRebootIff(s, before);
      RunCounts(s, before, 0, SIGTERM);
      if !After(s, before).exited { PassCounts(After(s, before), last, 0, SIGTERM); }
      SomeRebootStep(s, passes);
    }
  }

  /** What the launch leaves: the programs started in order, each with its process identifier, up to the
      first fork that fails, which ends the supervisor. */
  lemma {:induction false} LaunchOutcome(s: State, forks: seq<int>, k: nat)
    requires k <= |s.programs| == |forks| && !s.exited
    requires forall i :: 0 <= i < k ==> forks[i] > 0
    ensures var t := Launched(s, forks, k);
      && !t.exited && t.needReboot == s.needReboot
      && t.log == s.log + seq(k, i requires 0 <= i < k => Started(i, forks[i]))
      && (forall i :: 0 <= i < k ==> t.programs[i] == s.programs[i].(pid := forks[i]))
      && (forall i :: k <= i < |forks| ==> t.programs[i] == s.programs[i])
    ensures k < |forks| && forks[k] < 0 ==>
              var t := Launched(s, forks, |forks|);
              t.exited && t.log == s.log + seq(k, i requires 0 <= i < k => Started(i, forks[i]))
    decreases k
  {
    if k > 0 {
      LaunchOutcome(s, forks, k - 1);
      assert seq(k, i requires 0 <= i < k => Started(i, forks[i]))
          == seq(k - 1, i requires 0 <= i < k - 1 => Started(i, forks[i])) + [Started(k - 1, forks[k - 1])];
    }
    if k < |forks| && forks[k] < 0 { LaunchStops(s, forks, k + 1); }
  }

  lemma {:induction false} LaunchCounts(s: State, forks: seq<int>, k: nat, i: nat)
    requires k <= |s.programs| == |forks| && !Launched(s, forks, k).exited && !s.exited
    ensures StartCount(Launched(s, forks, k).log, i) == StartCount(s.log, i) + if i < k then 1 else 0
    ensures Modes(Launched(s, forks, k).programs) == Modes(s.programs)
    ensures Launched(s, forks, k).needReboot == s.needReboot
    decreases k
  {
    hide StartCount;
    if k > 0 {
      var before := Launched(s, forks, k - 1);
      LaunchCounts(s, forks, k - 1, i);
      CountsConcat(before.log, [Started(k - 1, forks[k - 1])], i, SIGTERM);
      OneCount(Started(k - 1, forks[k - 1]), i, SIGTERM);
    }
  }

  /** From the first launch on, over every run: a program that is not to be rerun is started exactly once. */
  lemma StartedOnce(s: State, forks: seq<int>, passes: seq<Answers>, i: nat)
    requires |forks| == |s.programs| && s.log == [] && !s.exited
    requires !Launched(s, forks, |forks|).exited
    requires AllFor(passes, |s.programs|) && i < |s.programs|
    ensures var run := After(Launched(s, forks, |forks|), passes);
      && StartCount(run.log, i) == 1 + StartingPasses(Launched(s, forks, |forks|), passes, i)
      && (s.programs[i].mode != RERUN ==> StartCount(run.log, i) == 1)
  {
    hide After, Launched, StartingPasses;
    var launched := Launched(s, forks, |forks|);
    LaunchCounts(s, forks, |forks|, i);
    RunCounts(launched, passes, i, SIGTERM);
    if s.programs[i].mode != RERUN {
      assert Modes(launched.programs)[i] == s.programs[i].mode;
      NeverStarting(launched, passes, i);
    }
  }

  lemma {:induction false} NeverStarting(s: State, passes: seq<Answers>, i: nat)
    requires AllFor(passes, |s.programs|) && i < |s.programs|
    requires forall j :: 0 <= j < |passes| ==> !StartsIt(Modes(s.programs), passes[j], i)
    ensures StartingPasses(s, passes, i) == 0
    decreases |passes|
  {
    if passes != [] {
      assert forall j :: 0 <= j < |passes| - 1 ==> passes[..|passes| - 1][j] == passes[j];
      NeverStarting(s, passes[..|passes| - 1], i);
    }
  }

  /** Once a program that calls for a reboot is dead, and stays so, neither it nor any program behind
      it in the list is ever started again; those before it still may be, until the machine goes down. */
  lemma NothingBehindRestarted(s: State, f: nat, passes: seq<Answers>, i: nat)
    requires AllFor(passes, |s.programs|) && f <= i < |s.programs|
    requires s.programs[f].mode == REBOOT
    requires forall j :: 0 <= j < |passes| ==> !passes[j].alive[f]
    ensures StartCount(After(s, passes).log, i) == StartCount(s.log, i)
  {
    hide After, StartCount;
    RunCounts(s, passes, i, SIGTERM);
    forall j | 0 <= j < |passes| ensures !StartsIt(Modes(s.programs), passes[j], i) {
      assert Stops(Modes(s.programs), passes[j], f);
    }
    NeverStarting(s, passes, i);
  }

  // ---- The list the program ends up with ----

  /** The start of the program: the name is set after the list was read, so the file it names is never read. */
  method StartSupervisor(files: Files, configFile: string, forks: seq<int>) returns (progs: ProgramWatch)
    requires |forks| == |ReadConfig(files, "")| && forall i :: 0 <= i < |forks| ==> forks[i] != 0
    ensures fresh(progs) && progs.configFileName == configFile
    ensures progs.Current() == Launched(State(ReadConfig(files, ""), false, false, []), forks, |forks|)
  {
    progs := new ProgramWatch(files);
    progs.SetConfigFilePath(configFile);
    progs.Run(forks);
  }

  /** No file has an empty name, so the program starts nothing and, whatever happens, never does anything. */
  lemma {:induction false} NothingIsWatched(files: Files, passes: seq<Answers>)
    requires "" !in files && AllFor(passes, |ReadConfig(files, "")|)
    ensures var start := State(ReadConfig(files, ""), false, false, []);
      After(Launched(start, [], 0), passes) == start && start.programs == []
    decreases |passes|
  {
    if passes != [] {
      var before := passes[..|passes| - 1];
      assert forall j :: 0 <= j < |before| ==> before[j] == passes[j];
      NothingIsWatched(files, before);
    }
  }
}

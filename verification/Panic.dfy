/** Kernel panic across cores: one banner, one broadcast, and every core halted, whatever the interleaving. */
module Panic {
  import opened Common

  /** Where a core is in `panic` or `nmi_vector`; Running is anywhere else. */
  datatype Phase =
    | Running
    | Entering   // at the panic lock
    | Holding    // has it, about to read is_halting
    | Setting    // read false
    | Banner     // is_halting is set; the panic line comes next
    | Report     // the registers and the backtrace come next
    | Sending    // the broadcast comes next
    | Late       // read true; its one line comes next
    | Releasing
    | Nested     // panicked again inside panic: at the lock it holds itself
    | Handler    // in nmi_vector, about to read is_halting
    | Halted

  /** `pending`: an NMI has been sent and not yet taken.  `blocked`: one has been taken, and since its handler
      never returns the core takes no other. */
  datatype Core = Core(phase: Phase, pending: bool, blocked: bool)

  /** `console` holds the core that is inside a printf outside of panic, so has the printf lock.  `starter`
      is the core that set is_halting; the counters count banners, broadcasts and unexpected NMIs. */
  datatype State = State(
    cores: seq<Core>, locked: bool, halting: bool, console: Option<nat>,
    starter: Option<nat>, banners: nat, broadcasts: nat, unexpected: nat)

  function Start(n: nat): State {
    State(seq(n, _ => Core(Running, false, false)), false, false, None, None, 0, 0, 0)
  }

  /** A core may run into a panic, do so again inside panic, enter or leave a printf, go on inside panic or
      the handler, or take an NMI. */
  datatype Action = CallPanic | PanicWithin | EnterPrintf | LeavePrintf | Advance | TakeNmi

  predicate Enabled(s: State, i: nat, a: Action) {
    i < |s.cores| &&
    var core := s.cores[i];
    match a
    case CallPanic => core.phase.Running?
    case PanicWithin => core.phase in {Holding, Setting, Banner, Report, Sending, Late}
    case EnterPrintf => core.phase.Running? && s.console.None?
    case LeavePrintf => core.phase.Running? && s.console == Some(i)
    case TakeNmi => core.pending && !core.blocked
    case Advance =>
      match core.phase
      case Running => false
      case Halted => false
      case Nested => false
      case Entering => !s.locked
      case Banner => s.console.None?
      case Report => s.console.None?
      case Late => s.console.None?
      case _ => true
  }

  function At(s: State, i: nat, p: Phase): State
    requires i < |s.cores|
  {
    s.(cores := s.cores[i := s.cores[i].(phase := p)])
  }

  /** The IPI goes to all cores but the sender. */
  function SendToOthers(cores: seq<Core>, i: nat): seq<Core> {
    seq(|cores|, j requires 0 <= j < |cores| => if j == i then cores[j] else cores[j].(pending := true))
  }

  function Step(s: State, i: nat, a: Action): State
    requires Enabled(s, i, a)
  {
    match a
    case CallPanic => At(s, i, Entering)
    case PanicWithin => At(s, i, Nested)
    case EnterPrintf => s.(console := Some(i))
    case LeavePrintf => s.(console := None)
    case TakeNmi => s.(cores := s.cores[i := Core(Handler, false, true)])
    case Advance =>
      match s.cores[i].phase
      case Entering => At(s, i, Holding).(locked := true)
      case Holding => At(s, i, if s.halting then Late else Setting)
      case Setting => At(s, i, Banner).(halting := true, starter := Some(i))
      case Banner => At(s, i, Report).(banners := s.banners + 1)
      case Report => At(s, i, Sending)
      case Sending =>
        At(s, i, Releasing).(cores := SendToOthers(At(s, i, Releasing).cores, i), broadcasts := s.broadcasts + 1)
      case Late => At(s, i, Releasing)
      case Releasing => At(s, i, Halted).(locked := false)
      case Handler => if s.halting then At(s, i, Halted) else At(s, i, Entering).(unexpected := s.unexpected + 1)
  }

  /** Steps that are not enabled, such as a failed test-and-set, change nothing. */
  function Run(s: State, schedule: seq<(nat, Action)>): State {
    if schedule == [] then s
    else
      var before, last := Run(s, schedule[..|schedule| - 1]), schedule[|schedule| - 1];
      if Enabled(before, last.0, last.1) then Step(before, last.0, last.1) else before
  }

  // ---------------------------------------------------------------- the invariant

  /** Between taking and releasing the panic lock. */
  predicate Inside(p: Phase) {
    p in {Holding, Setting, Banner, Report, Sending, Late, Releasing, Nested}
  }

  predicate LockInv(s: State) {
    && (forall i :: 0 <= i < |s.cores| && Inside(s.cores[i].phase) ==> s.locked)
    && (forall i, j :: 0 <= i < j < |s.cores| ==> !(Inside(s.cores[i].phase) && Inside(s.cores[j].phase)))
    && (s.locked ==> exists i :: 0 <= i < |s.cores| && (Inside(s.cores[i].phase) || s.cores[i].blocked))
  }

  predicate StarterInv(s: State) {
    && s.halting == s.starter.Some?
    && match s.starter
       case None => s.banners == 0 && s.broadcasts == 0
       case Some(i) =>
         && i < |s.cores|
         && var core := s.cores[i];
         && !core.pending && !core.blocked
         && core.phase in {Banner, Report, Sending, Nested, Releasing, Halted}
         && s.banners <= 1
         && (core.phase.Banner? ==> s.banners == 0)
         && (core.phase in {Report, Sending, Releasing, Halted} ==> s.banners == 1)
         && s.broadcasts == (if core.phase in {Releasing, Halted} then 1 else 0)
  }

  /** What holds of core i, by its phase and by whether the broadcast is out. */
  predicate CoreInv(s: State, i: nat)
    requires i < |s.cores|
  {
    var core := s.cores[i];
    && (core.phase.Setting? ==> !s.halting)
    && (core.phase in {Banner, Report, Sending} ==> s.starter == Some(i))
    && (core.phase in {Late, Releasing, Handler, Halted} ==> s.broadcasts == 1)
    && (core.phase.Handler? ==> core.blocked)
    && (core.blocked ==> core.phase in {Handler, Halted})
    && (s.broadcasts == 0 ==> !core.pending && !core.blocked)
    && (s.broadcasts == 1 && s.starter != Some(i) ==> core.pending != core.blocked)
  }

  predicate Inv(s: State) {
    && LockInv(s) && StarterInv(s) && s.unexpected == 0
    && (s.console.Some? ==> s.console.value < |s.cores|)
    && forall i :: 0 <= i < |s.cores| ==> CoreInv(s, i)
  }

  lemma StepKeepsLockInv(s: State, i: nat, a: Action)
    requires Inv(s) && Enabled(s, i, a)
    ensures LockInv(Step(s, i, a))
  {
    hide StarterInv, Step, Inside;
    var t := Step(s, i, a);
    PhasesAfter(s, i, a);
    if t.locked {
      if s.locked {
        var j :| 0 <= j < |s.cores| && (Inside(s.cores[j].phase) || s.cores[j].blocked);
        StaysInside(s, i, a, j);
        assert Inside(t.cores[j].phase) || t.cores[j].blocked;
      } else {
        assert Inside(t.cores[i].phase);
      }
    }
  }

  /** A step changes the phase of one core, which enters the lock only when it is free. */
  lemma PhasesAfter(s: State, i: nat, a: Action)
    requires Enabled(s, i, a)
    ensures var t := Step(s, i, a);
            && |t.cores| == |s.cores|
            && (forall j :: 0 <= j < |s.cores| && j != i ==> t.cores[j].phase == s.cores[j].phase)
            && s.broadcasts <= t.broadcasts
            && (Inside(t.cores[i].phase) && !Inside(s.cores[i].phase) ==> !s.locked)
            && (Inside(t.cores[i].phase) ==> t.locked || Inside(s.cores[i].phase))
            && (t.locked && !s.locked ==> Inside(t.cores[i].phase))
            && (s.locked && !t.locked ==> Inside(s.cores[i].phase) && !Inside(t.cores[i].phase))
  {
  }

  /** A core leaves the lock only by releasing it, or for good by taking an NMI. */
  lemma StaysInside(s: State, i: nat, a: Action, j: nat)
    requires Inv(s) && Enabled(s, i, a) && j < |s.cores| && (Inside(s.cores[j].phase) || s.cores[j].blocked)
    requires Step(s, i, a).locked
    ensures var t := Step(s, i, a); j < |t.cores| && (Inside(t.cores[j].phase) || t.cores[j].blocked)
  {
    hide StarterInv, LockInv;
    assert CoreInv(s, i) && CoreInv(s, j);
  }

  lemma StepKeepsCoreInv(s: State, i: nat, a: Action, j: nat)
    requires Inv(s) && Enabled(s, i, a) && j < |s.cores|
    ensures |Step(s, i, a).cores| == |s.cores| && CoreInv(Step(s, i, a), j)
  {
    assert CoreInv(s, i) && CoreInv(s, j);
  }

  lemma StepKeepsInv(s: State, i: nat, a: Action)
    requires Inv(s) && Enabled(s, i, a)
    ensures Inv(Step(s, i, a)) && |Step(s, i, a).cores| == |s.cores|
  {
    var t := Step(s, i, a);
    StepKeepsLockInv(s, i, a);
    forall j | 0 <= j < |s.cores| ensures CoreInv(t, j) { StepKeepsCoreInv(s, i, a, j); }
    assert CoreInv(s, i);
    StepKeepsStarter(s, i, a);
  }

  lemma StepKeepsStarter(s: State, i: nat, a: Action)
    requires Inv(s) && Enabled(s, i, a)
    ensures var t := Step(s, i, a); StarterInv(t) && t.unexpected == 0
  {
    hide LockInv;
    assert CoreInv(s, i);
    if s.starter.Some? { assert CoreInv(s, s.starter.value); }
  }

  lemma {:induction false} RunKeepsInv(s: State, schedule: seq<(nat, Action)>)
    requires Inv(s)
    ensures Inv(Run(s, schedule)) && |Run(s, schedule).cores| == |s.cores|
  {
    if schedule != [] {
      hide Inv;
      var before, last := Run(s, schedule[..|schedule| - 1]), schedule[|schedule| - 1];
      RunKeepsInv(s, schedule[..|schedule| - 1]);
      if Enabled(before, last.0, last.1) { StepKeepsInv(before, last.0, last.1); }
    }
  }

  // ---------------------------------------------------------------- safety

  /** In every interleaving at most one core prints the banner and sends the broadcast, it is the one that
      set is_halting, no NMI is reported as unexpected, and a core that has one on its way or in its handler
      finds is_halting set.  The panic lock is taken by at most one core at a time, and stays taken without one only
      if an NMI has stopped a core. */
  lemma PanicIsOneShot(n: nat, schedule: seq<(nat, Action)>)
    ensures var s := Run(Start(n), schedule);
            && s.banners <= 1 && s.broadcasts <= s.banners && s.unexpected == 0
            && forall i :: 0 <= i < |s.cores| ==>
                 && (s.cores[i].pending || s.cores[i].phase.Handler? ==> s.halting && s.broadcasts == 1)
                 && (s.cores[i].phase in {Banner, Report, Sending} ==> s.starter == Some(i))
    ensures var s := Run(Start(n), schedule);
            && (forall i, j :: 0 <= i < j < |s.cores| ==> !(Inside(s.cores[i].phase) && Inside(s.cores[j].phase)))
            && (forall i :: 0 <= i < |s.cores| && Inside(s.cores[i].phase) ==> s.locked)
            && (s.locked ==> exists i :: 0 <= i < |s.cores| && (Inside(s.cores[i].phase) || s.cores[i].blocked))
  {
    RunKeepsInv(Start(n), schedule);
    var s := Run(Start(n), schedule);
    forall i | 0 <= i < |s.cores|
      ensures s.cores[i].pending || s.cores[i].phase.Handler? ==> s.halting && s.broadcasts == 1
      ensures s.cores[i].phase in {Banner, Report, Sending} ==> s.starter == Some(i)
    {
      assert CoreInv(s, i);
    }
  }

  /** is_halting never reverts, the core that set it stays the one, and a core that called panic or took an
      NMI never runs again.  A core that panics inside panic never reports it: it spins or halts. */
  lemma {:induction false} NothingReverts(s: State, schedule: seq<(nat, Action)>)
    requires Inv(s)
    ensures var t := Run(s, schedule);
            && |t.cores| == |s.cores|
            && (s.halting ==> t.halting && t.starter == s.starter)
            && s.banners <= t.banners && s.broadcasts <= t.broadcasts
            && forall i :: 0 <= i < |s.cores| ==>
                 && (!s.cores[i].phase.Running? ==> !t.cores[i].phase.Running?)
                 && (s.cores[i].phase in {Nested, Handler, Halted} ==> t.cores[i].phase in {Nested, Handler, Halted})
                 && (s.cores[i].phase.Halted? && !s.cores[i].pending && s.broadcasts == 1 ==> t.cores[i] == s.cores[i])
  {
    if schedule != [] {
      hide LockInv;
      var before, last := Run(s, schedule[..|schedule| - 1]), schedule[|schedule| - 1];
      NothingReverts(s, schedule[..|schedule| - 1]);
      RunKeepsInv(s, schedule[..|schedule| - 1]);
      if Enabled(before, last.0, last.1) { OneStepReverts(before, last.0, last.1); }
    }
  }

  lemma OneStepReverts(s: State, i: nat, a: Action)
    requires Inv(s) && Enabled(s, i, a)
    ensures var t := Step(s, i, a);
            && |t.cores| == |s.cores|
            && (s.halting ==> t.halting && t.starter == s.starter)
            && s.banners <= t.banners && s.broadcasts <= t.broadcasts
            && forall j :: 0 <= j < |s.cores| ==>
                 && (!s.cores[j].phase.Running? ==> !t.cores[j].phase.Running?)
                 && (s.cores[j].phase in {Nested, Handler, Halted} ==> t.cores[j].phase in {Nested, Handler, Halted})
                 && (s.cores[j].phase.Halted? && !s.cores[j].pending && s.broadcasts == 1 ==> t.cores[j] == s.cores[j])
  {
    hide LockInv;
    assert CoreInv(s, i);
  }

  // ---------------------------------------------------------------- every panic ends in a bounded number of steps

  function PhaseWork(p: Phase): nat {
    match p
    case Running => 9
    case Entering => 8
    case Holding => 7
    case Setting => 6
    case Banner => 5
    case Report => 4
    case Sending => 3
    case Late => 3
    case Releasing => 2
    case Handler => 1
    case Nested => 1
    case Halted => 0
  }

  function CoreWork(core: Core): nat {
    PhaseWork(core.phase) + if core.blocked then 0 else 2
  }

  function Work(cores: seq<Core>): nat {
    if cores == [] then 0 else Work(cores[..|cores| - 1]) + CoreWork(cores[|cores| - 1])
  }

  lemma {:induction false} WorkMoves(a: seq<Core>, b: seq<Core>, i: nat)
    requires i < |a| == |b| && forall j :: 0 <= j < |a| && j != i ==> CoreWork(a[j]) == CoreWork(b[j])
    ensures Work(b) - Work(a) == CoreWork(b[i]) - CoreWork(a[i])
  {
    var last := |a| - 1;
    if i == last { WorkSame(a[..last], b[..last]); } else { WorkMoves(a[..last], b[..last], i); }
  }

  lemma {:induction false} WorkSame(a: seq<Core>, b: seq<Core>)
    requires |a| == |b| && forall j :: 0 <= j < |a| ==> CoreWork(a[j]) == CoreWork(b[j])
    ensures Work(a) == Work(b)
  {
    if a != [] { WorkSame(a[..|a| - 1], b[..|b| - 1]); }
  }

  predicate IsPrintf(a: Action) {
    a.EnterPrintf? || a.LeavePrintf?
  }

  lemma StepSpendsWork(s: State, i: nat, a: Action)
    requires Inv(s) && Enabled(s, i, a)
    ensures if IsPrintf(a) then Work(Step(s, i, a).cores) == Work(s.cores)
            else Work(Step(s, i, a).cores) < Work(s.cores)
  {
    hide LockInv, Work, CoreWork, Step;
    OthersWorkStays(s, i, a);
    CoreSpendsWork(s, i, a);
    WorkMoves(s.cores, Step(s, i, a).cores, i);
  }

  lemma OthersWorkStays(s: State, i: nat, a: Action)
    requires Enabled(s, i, a)
    ensures var b := Step(s, i, a).cores;
            |b| == |s.cores| && forall j :: 0 <= j < |b| && j != i ==> CoreWork(s.cores[j]) == CoreWork(b[j])
  {
    hide PhaseWork;
  }

  lemma CoreSpendsWork(s: State, i: nat, a: Action)
    requires Inv(s) && Enabled(s, i, a)
    ensures var before, after := CoreWork(s.cores[i]), CoreWork(Step(s, i, a).cores[i]);
            if IsPrintf(a) then after == before else after < before
  {
    hide LockInv;
    assert CoreInv(s, i);
  }

  /** The steps of a run that take effect and are not ordinary printing. */
  function PanicSteps(s: State, schedule: seq<(nat, Action)>): nat {
    if schedule == [] then 0
    else
      var before, last := Run(s, schedule[..|schedule| - 1]), schedule[|schedule| - 1];
      PanicSteps(s, schedule[..|schedule| - 1]) + if Enabled(before, last.0, last.1) && !IsPrintf(last.1) then 1 else 0
  }

  lemma {:induction false} StepsSpendWork(s: State, schedule: seq<(nat, Action)>)
    requires Inv(s)
    ensures PanicSteps(s, schedule) + Work(Run(s, schedule).cores) <= Work(s.cores)
  {
    if schedule != [] {
      hide Inv;
      var before, last := Run(s, schedule[..|schedule| - 1]), schedule[|schedule| - 1];
      StepsSpendWork(s, schedule[..|schedule| - 1]);
      RunKeepsInv(s, schedule[..|schedule| - 1]);
      if Enabled(before, last.0, last.1) { StepSpendsWork(before, last.0, last.1); }
    }
  }

  lemma {:induction false} WorkAtStart(n: nat)
    ensures Work(Start(n).cores) == 11 * n
  {
    if n > 0 {
      WorkAtStart(n - 1);
      assert Start(n).cores[..n - 1] == Start(n - 1).cores;
    }
  }

  /** However the cores interleave, panics and NMIs make at most eleven steps for each core. */
  lemma PanicStepsBounded(n: nat, schedule: seq<(nat, Action)>)
    ensures PanicSteps(Start(n), schedule) <= 11 * n
  {
    StepsSpendWork(Start(n), schedule);
    WorkAtStart(n);
  }

  // ---------------------------------------------------------------- when a panic halts the machine

  predicate PanicCalled(s: State) {
    exists i :: 0 <= i < |s.cores| && !s.cores[i].phase.Running?
  }

  predicate AllHalted(s: State) {
    forall i :: 0 <= i < |s.cores| ==> s.cores[i].phase.Halted?
  }

  /** A core ran into its panic inside a printf, so keeps the printf lock, and the report still needs it. */
  predicate PrintfTaken(s: State) {
    && s.console.Some? && s.console.value < |s.cores| && !s.cores[s.console.value].phase.Running?
    && forall i :: 0 <= i < |s.cores| ==> !s.cores[i].phase.Sending?
  }

  /** Before the broadcast, the printf lock or the panic lock will never be released. */
  predicate Hung(s: State) {
    s.broadcasts == 0 && (PrintfTaken(s) || exists i :: 0 <= i < |s.cores| && s.cores[i].phase.Nested?)
  }

  /** The step that brings a panic closer to its end. */
  lemma NextStep(s: State) returns (i: nat, a: Action)
    requires Inv(s) && PanicCalled(s) && !Hung(s) && !AllHalted(s)
    ensures a in {Advance, TakeNmi, LeavePrintf} && Enabled(s, i, a)
  {
    if s.broadcasts == 1 {
      i :| 0 <= i < |s.cores| && !s.cores[i].phase.Halted?;
      assert CoreInv(s, i);
      a := if s.cores[i].pending then TakeNmi else Advance;
    } else {
      i :| 0 <= i < |s.cores| && !s.cores[i].phase.Running?;
      a := Advance;
      assert CoreInv(s, i);
      if s.locked {
        i :| 0 <= i < |s.cores| && (Inside(s.cores[i].phase) || s.cores[i].blocked);
        assert CoreInv(s, i);
      }
      assert CoreInv(s, i);
      if s.console.Some? && !s.cores[i].phase.Sending? {
        var sending := exists j :: 0 <= j < |s.cores| && s.cores[j].phase.Sending?;
        if sending {
          var j :| 0 <= j < |s.cores| && s.cores[j].phase.Sending?;
          i := j;
        } else {
          i, a := s.console.value, LeavePrintf;
        }
      }
    }
  }

  lemma NextStepDoesNotHang(s: State, i: nat, a: Action)
    requires Inv(s) && !Hung(s) && a in {Advance, TakeNmi, LeavePrintf} && Enabled(s, i, a)
    ensures !Hung(Step(s, i, a))
  {
    var t := Step(s, i, a);
    assert CoreInv(s, i);
    forall j | 0 <= j < |s.cores| && t.cores[j].phase.Nested? ensures s.cores[j].phase.Nested? {
    }
    forall sender | 0 <= sender < |s.cores| && s.cores[sender].phase.Sending?
      ensures t.broadcasts == 1 || t.cores[sender].phase.Sending?
    {
      assert CoreInv(s, sender) && (sender != i ==> CoreInv(s, i));
    }
  }

  lemma NextStepKeeps(s: State, i: nat, a: Action)
    requires Inv(s) && PanicCalled(s) && !Hung(s) && a in {Advance, TakeNmi, LeavePrintf} && Enabled(s, i, a)
    ensures var t := Step(s, i, a); Inv(t) && PanicCalled(t) && !Hung(t)
    ensures var t := Step(s, i, a); Remaining(t) < Remaining(s)
  {
    var t := Step(s, i, a);
    StepKeepsInv(s, i, a);
    StepSpendsWork(s, i, a);
    OneStepReverts(s, i, a);
    assert CoreInv(s, i) && StarterInv(t);
    var j :| 0 <= j < |s.cores| && !s.cores[j].phase.Running?;
    assert !t.cores[j].phase.Running?;
    NextStepDoesNotHang(s, i, a);
  }

  function Remaining(s: State): nat {
    Work(s.cores) + if s.console.Some? then 1 else 0
  }

  lemma {:induction false} RunConcat(s: State, a: seq<(nat, Action)>, b: seq<(nat, Action)>)
    ensures Run(s, a + b) == Run(Run(s, a), b)
    decreases |b|
  {
    if b == [] {
      assert a + b == a;
    } else {
      assert (a + b)[..|a + b| - 1] == a + b[..|b| - 1];
      RunConcat(s, a, b[..|b| - 1]);
    }
  }

  /** A schedule that halts every core. */
  lemma {:induction false} CanHalt(s: State) returns (schedule: seq<(nat, Action)>)
    requires Inv(s) && PanicCalled(s) && !Hung(s)
    ensures AllHalted(Run(s, schedule))
    decreases Remaining(s)
  {
    if AllHalted(s) {
      schedule := [];
    } else {
      hide Inv, PanicCalled, Hung, AllHalted, Enabled, Step, Remaining;
      var i, a := NextStep(s);
      NextStepKeeps(s, i, a);
      var more := CanHalt(Step(s, i, a));
      schedule := [(i, a)] + more;
      RunOne(s, i, a);
      RunConcat(s, [(i, a)], more);
    }
  }

  lemma RunOne(s: State, i: nat, a: Action)
    requires Enabled(s, i, a)
    ensures Run(s, [(i, a)]) == Step(s, i, a)
  {
    assert [(i, a)][..0] == [];
    assert Run(s, []) == s;
  }

  lemma {:induction false} HungForever(s: State, schedule: seq<(nat, Action)>)
    requires Inv(s) && Hung(s)
    ensures Hung(Run(s, schedule))
  {
    if schedule != [] {
      var before, last := Run(s, schedule[..|schedule| - 1]), schedule[|schedule| - 1];
      HungForever(s, schedule[..|schedule| - 1]);
      RunKeepsInv(s, schedule[..|schedule| - 1]);
      if Enabled(before, last.0, last.1) { StepKeepsHung(before, last.0, last.1); }
    }
  }

  lemma StepKeepsHung(s: State, i: nat, a: Action)
    requires Inv(s) && Hung(s) && Enabled(s, i, a)
    ensures Hung(Step(s, i, a))
  {
    assert CoreInv(s, i);
    var t := Step(s, i, a);
    if j :| 0 <= j < |s.cores| && s.cores[j].phase.Nested? {
      assert CoreInv(s, j);
      assert t.cores[j].phase.Nested?;
    }
  }

  /** From every reachable state in which a core has called panic, all cores can still come to a halt if and
      only if the broadcast is out, or no core has panicked inside panic and none has called panic inside a
      printf that the report still waits for. */
  lemma PanicHaltsAllIff(n: nat, schedule: seq<(nat, Action)>)
    requires PanicCalled(Run(Start(n), schedule))
    ensures var s := Run(Start(n), schedule); (exists more :: AllHalted(Run(s, more))) <==> !Hung(s)
  {
    RunKeepsInv(Start(n), schedule);
    var s := Run(Start(n), schedule);
    if !Hung(s) {
      var more := CanHalt(s);
    } else {
      forall more ensures !AllHalted(Run(s, more)) {
        HungForever(s, more);
        RunKeepsInv(s, more);
        HungIsNotHalted(Run(s, more));
      }
    }
  }

  lemma HungIsNotHalted(s: State)
    requires Inv(s) && Hung(s)
    ensures !AllHalted(s)
  {
    if PrintfTaken(s) { assert CoreInv(s, s.console.value); }
  }

  /** A run that has come to rest, with ordinary printfs left, has halted every core unless it hangs: with
      the bound on the steps, no schedule that keeps serving every core can avoid it. */
  lemma RestIsHalted(n: nat, schedule: seq<(nat, Action)>)
    requires var s := Run(Start(n), schedule);
             && PanicCalled(s)
             && forall i: nat, a :: a in {Advance, TakeNmi, LeavePrintf} ==> !Enabled(s, i, a)
    ensures var s := Run(Start(n), schedule); AllHalted(s) || Hung(s)
  {
    RunKeepsInv(Start(n), schedule);
    var s := Run(Start(n), schedule);
    if !AllHalted(s) && !Hung(s) {
      var i, a := NextStep(s);
    }
  }

  /** When all cores have halted, the banner was printed and the broadcast sent, once each. */
  lemma HaltedReports(n: nat, schedule: seq<(nat, Action)>)
    requires n > 0 && AllHalted(Run(Start(n), schedule))
    ensures var s := Run(Start(n), schedule); s.banners == 1 && s.broadcasts == 1 && s.halting
  {
    RunKeepsInv(Start(n), schedule);
    assert CoreInv(Run(Start(n), schedule), 0);
  }

  /** A panic inside a printf on the only core hangs: it never gets past the banner. */
  lemma PanicInPrintfHangs()
    ensures var s := Run(Start(1), [(0, EnterPrintf), (0, CallPanic)]);
            PanicCalled(s) && Hung(s) && forall more :: Run(s, more).banners == 0
  {
    var s0 := Start(1);
    RunOne(s0, 0, EnterPrintf);
    var s1 := Step(s0, 0, EnterPrintf);
    RunOne(s1, 0, CallPanic);
    RunConcat(s0, [(0, EnterPrintf)], [(0, CallPanic)]);
    assert [(0, EnterPrintf)] + [(0, CallPanic)] == [(0, EnterPrintf), (0, CallPanic)];
    var s := Step(s1, 0, CallPanic);
    RunKeepsInv(s0, [(0, EnterPrintf), (0, CallPanic)]);
    assert s.cores[0].phase == Entering;
    forall more ensures Run(s, more).banners == 0 { NoBanner(s, more); }
  }

  lemma HungPrintsNoBanner(s: State, i: nat, a: Action)
    requires Inv(s) && Hung(s) && Enabled(s, i, a)
    ensures Step(s, i, a).banners == s.banners
  {
    assert s.cores[i].phase.Banner? ==> Inside(s.cores[i].phase) && (s.console.Some? || a != Advance);
    forall j | 0 <= j < |s.cores| && s.cores[j].phase.Nested? && j != i ensures !s.cores[i].phase.Banner? {
      assert Inside(s.cores[j].phase);
    }
  }

  lemma {:induction false} NoBanner(s: State, schedule: seq<(nat, Action)>)
    requires Inv(s) && Hung(s) && s.banners == 0
    ensures Run(s, schedule).banners == 0
  {
    if schedule != [] {
      var before, last := Run(s, schedule[..|schedule| - 1]), schedule[|schedule| - 1];
      NoBanner(s, schedule[..|schedule| - 1]);
      HungForever(s, schedule[..|schedule| - 1]);
      RunKeepsInv(s, schedule[..|schedule| - 1]);
      if Enabled(before, last.0, last.1) { HungPrintsNoBanner(before, last.0, last.1); }
    }
  }
}

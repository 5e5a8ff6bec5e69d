/** Every interleaving of the cores' programs: mutual exclusion, no deadlock, and whole printf texts on
    the console. */
module LockRuns {
  import opened Common
  import opened Locks

  /** What a core has left to do.  `held` and `text`, what it has emitted since it took the printf lock,
      follow from what it did. */
  datatype Core = Core(todo: seq<Action>, held: seq<Lock>, text: string)

  /** The lock flags, the console, and `printed`: the texts of finished printf calls with their cores. */
  datatype State = State(cores: seq<Core>, locked: set<Lock>, console: string, printed: seq<(nat, string)>)

  function Start(programs: seq<seq<Action>>): State {
    State(seq(|programs|, i requires 0 <= i < |programs| => Core(programs[i], [], "")), {}, "", [])
  }

  /** A core is at a lock that is taken: its next test-and-set fails and it spins. */
  predicate Spins(s: State, i: nat) {
    i < |s.cores| && s.cores[i].todo != [] && s.cores[i].todo[0].Acquire? && s.cores[i].todo[0].l in s.locked
  }

  predicate CanStep(s: State, i: nat) {
    i < |s.cores| && s.cores[i].todo != [] && !Spins(s, i)
  }

  /** One atomic step of core i: a test-and-set, a clear, or a character. */
  function Step(s: State, i: nat): State {
    if i >= |s.cores| || s.cores[i].todo == [] || Spins(s, i) then s
    else
      var core := s.cores[i];
      var rest := core.todo[1..];
      match core.todo[0]
      case Acquire(l) =>
        s.(cores := s.cores[i := Core(rest, core.held + [l], if l == Printf then "" else core.text)],
           locked := s.locked + {l})
      case Release(l) =>
        s.(cores := s.cores[i := Core(rest, if core.held == [] then [] else core.held[..|core.held| - 1],
                                      if l == Printf then "" else core.text)],
           locked := s.locked - {l},
           printed := if l == Printf then s.printed + [(i, core.text)] else s.printed)
      case Emit(c) =>
        s.(cores := s.cores[i := Core(rest, core.held, core.text + [c])], console := s.console + [c])
  }

  /** An interleaving: which core steps next, at each moment. */
  function Run(s: State, schedule: seq<nat>): State {
    if schedule == [] then s else Step(Run(s, schedule[..|schedule| - 1]), schedule[|schedule| - 1])
  }

  // ---------------------------------------------------------------- what cores print

  /** The texts a list of actions finishes, given what was emitted of the current one. */
  function Texts(todo: seq<Action>, text: string): seq<string> {
    if todo == [] then []
    else match todo[0]
      case Acquire(l) => Texts(todo[1..], if l == Printf then "" else text)
      case Release(l) => if l == Printf then [text] + Texts(todo[1..], "") else Texts(todo[1..], text)
      case Emit(c) => Texts(todo[1..], text + [c])
  }

  function By(printed: seq<(nat, string)>, i: nat): seq<string> {
    if printed == [] then []
    else
      var last := printed[|printed| - 1];
      By(printed[..|printed| - 1], i) + (if last.0 == i then [last.1] else [])
  }

  function Flatten(printed: seq<(nat, string)>): string {
    if printed == [] then "" else Flatten(printed[..|printed| - 1]) + printed[|printed| - 1].1
  }

  // ---------------------------------------------------------------- the invariant

  ghost predicate HeldIsLocked(s: State) {
    forall i, k :: 0 <= i < |s.cores| && 0 <= k < |s.cores[i].held| ==> s.cores[i].held[k] in s.locked
  }

  /** A taken lock is held by a core. */
  ghost predicate LockedIsHeld(s: State) {
    forall l :: l in s.locked ==> exists i :: 0 <= i < |s.cores| && l in s.cores[i].held
  }

  /** No lock is held twice, by two cores or by one. */
  ghost predicate HeldOnce(s: State) {
    && (forall i, j, l :: 0 <= i < |s.cores| && 0 <= j < |s.cores| && i != j && l in s.cores[i].held ==>
        l !in s.cores[j].held)
    && (forall i :: 0 <= i < |s.cores| ==> Rising(s.cores[i].held))
  }

  ghost predicate Rising(held: seq<Lock>) {
    forall j, k :: 0 <= j < k < |held| ==> Rank(held[j]) < Rank(held[k])
  }

  ghost predicate AllDisciplined(s: State) {
    forall i :: 0 <= i < |s.cores| ==> Disciplined(s.cores[i].todo, s.cores[i].held)
  }

  /** The console is the finished texts, then what the holder of the printf lock has emitted. */
  ghost predicate ConsoleWhole(s: State) {
    && (Printf !in s.locked ==> s.console == Flatten(s.printed))
    && (forall i :: 0 <= i < |s.cores| && Printf in s.cores[i].held ==>
        s.console == Flatten(s.printed) + s.cores[i].text)
  }

  /** What each core has printed and will print is what its program prints. */
  ghost predicate PrintsPrograms(s: State, programs: seq<seq<Action>>) {
    && |s.cores| == |programs|
    && forall i :: 0 <= i < |s.cores| ==>
         By(s.printed, i) + Texts(s.cores[i].todo, s.cores[i].text) == Texts(programs[i], "")
  }

  ghost predicate Inv(s: State, programs: seq<seq<Action>>) {
    && HeldIsLocked(s) && LockedIsHeld(s) && HeldOnce(s) && AllDisciplined(s)
    && ConsoleWhole(s) && PrintsPrograms(s, programs)
  }

  lemma StartInv(programs: seq<seq<Action>>)
    requires forall i :: 0 <= i < |programs| ==> Disciplined(programs[i], [])
    ensures Inv(Start(programs), programs)
  {
    forall i | 0 <= i < |programs| ensures By([], i) + Texts(programs[i], "") == Texts(programs[i], "") {
      assert By([], i) == [];
    }
  }

  lemma DisciplinedHead(todo: seq<Action>, held: seq<Lock>)
    requires Disciplined(todo, held) && todo != []
    ensures todo[0].Acquire? ==> Above(held, todo[0].l) && Disciplined(todo[1..], held + [todo[0].l])
    ensures todo[0].Release? ==>
              held != [] && held[|held| - 1] == todo[0].l && Disciplined(todo[1..], held[..|held| - 1])
    ensures todo[0].Emit? ==> Printf in held && Disciplined(todo[1..], held)
  {
  }

  lemma PrintedBy(printed: seq<(nat, string)>, i: nat, text: string, j: nat)
    ensures By(printed + [(i, text)], j) == By(printed, j) + if i == j then [text] else []
    ensures Flatten(printed + [(i, text)]) == Flatten(printed) + text
  {
    assert (printed + [(i, text)])[..|printed|] == printed;
  }

  lemma AcquireKeepsConsole(s: State, i: nat, programs: seq<seq<Action>>)
    requires Inv(s, programs) && CanStep(s, i) && s.cores[i].todo[0].Acquire?
    ensures var t := Step(s, i); ConsoleWhole(t) && PrintsPrograms(t, programs)
  {
    hide Disciplined, By, Flatten, HeldOnce, LockedIsHeld;
    var t := Step(s, i);
    assert forall j :: 0 <= j < |s.cores| && j != i ==> t.cores[j] == s.cores[j];
    assert forall j, k :: 0 <= j < |s.cores| && 0 <= k < |s.cores[j].held| ==> s.cores[j].held[k] in s.locked;
    assert t.cores[i].held == s.cores[i].held + [s.cores[i].todo[0].l];
  }

  lemma AcquireKeepsLocks(s: State, i: nat, programs: seq<seq<Action>>)
    requires Inv(s, programs) && CanStep(s, i) && s.cores[i].todo[0].Acquire?
    ensures var t := Step(s, i); HeldIsLocked(t) && HeldOnce(t) && AllDisciplined(t)
  {
    hide Disciplined, Texts, ConsoleWhole, PrintsPrograms, LockedIsHeld;
    var t := Step(s, i);
    var core := s.cores[i];
    var l := core.todo[0].l;
    DisciplinedHead(core.todo, core.held);
    assert t.cores[i].held == core.held + [l] && t.cores[i].held[|core.held|] == l;
    forall j | 0 <= j < |s.cores| ensures l !in s.cores[j].held {
      assert forall k :: 0 <= k < |s.cores[j].held| ==> s.cores[j].held[k] in s.locked;
    }
  }

  lemma AcquireKeepsHolders(s: State, i: nat, programs: seq<seq<Action>>)
    requires Inv(s, programs) && CanStep(s, i) && s.cores[i].todo[0].Acquire?
    ensures LockedIsHeld(Step(s, i))
  {
    hide HeldIsLocked, HeldOnce, AllDisciplined, ConsoleWhole, PrintsPrograms;
    var t := Step(s, i);
    var l := s.cores[i].todo[0].l;
    assert t.cores[i].held == s.cores[i].held + [l] && t.cores[i].held[|s.cores[i].held|] == l;
    forall m | m in t.locked ensures exists j :: 0 <= j < |t.cores| && m in t.cores[j].held {
      if m == l {
        assert m in t.cores[i].held;
      } else {
        var j :| 0 <= j < |s.cores| && m in s.cores[j].held;
        assert m in t.cores[j].held;
      }
    }
  }

  /** The last of rising locks is gone, the others stay. */
  lemma DropLast(held: seq<Lock>)
    requires held != [] && Rising(held)
    ensures Rising(held[..|held| - 1])
    ensures forall m :: m in held[..|held| - 1] <==> m in held && m != held[|held| - 1]
  {
    var last := |held| - 1;
    forall k | 0 <= k < last ensures held[k] != held[last] {
      assert Rank(held[k]) < Rank(held[last]);
    }
    forall m | m in held && m != held[last] ensures m in held[..last] {
      var k :| 0 <= k < |held| && held[k] == m;
      assert held[..last][k] == m;
    }
  }

  lemma ReleaseKeepsLocks(s: State, i: nat, programs: seq<seq<Action>>)
    requires Inv(s, programs) && CanStep(s, i) && s.cores[i].todo[0].Release?
    ensures var t := Step(s, i); HeldOnce(t) && AllDisciplined(t)
  {
    hide Disciplined, Flatten, Texts, Rising, ConsoleWhole, PrintsPrograms, HeldIsLocked, LockedIsHeld;
    var t := Step(s, i);
    var core := s.cores[i];
    DisciplinedHead(core.todo, core.held);
    DropLast(core.held);
    assert t.cores[i].held == core.held[..|core.held| - 1];
    assert forall j, m :: 0 <= j < |t.cores| && m in t.cores[j].held ==> m in s.cores[j].held;
  }

  lemma ReleaseKeepsFlags(s: State, i: nat, programs: seq<seq<Action>>)
    requires Inv(s, programs) && CanStep(s, i) && s.cores[i].todo[0].Release?
    ensures HeldIsLocked(Step(s, i))
  {
    hide Texts, ConsoleWhole, PrintsPrograms, AllDisciplined, Rising, LockedIsHeld;
    var t := Step(s, i);
    var core := s.cores[i];
    var l := core.todo[0].l;
    HeadOf(s, i);
    DropLast(core.held);
    assert t.cores[i].held == core.held[..|core.held| - 1];
    forall j, m | 0 <= j < |t.cores| && m in t.cores[j].held ensures m in s.cores[j].held && m in t.locked {
      assert m in s.locked && l in core.held;
    }
    forall j, k | 0 <= j < |t.cores| && 0 <= k < |t.cores[j].held| ensures t.cores[j].held[k] in t.locked {
      assert t.cores[j].held[k] in t.cores[j].held;
    }
  }

  lemma ReleaseKeepsHolders(s: State, i: nat, programs: seq<seq<Action>>)
    requires Inv(s, programs) && CanStep(s, i) && s.cores[i].todo[0].Release?
    ensures LockedIsHeld(Step(s, i))
  {
    hide Texts, ConsoleWhole, PrintsPrograms, AllDisciplined, Rising, HeldIsLocked;
    var t := Step(s, i);
    var core := s.cores[i];
    HeadOf(s, i);
    DropLast(core.held);
    assert t.cores[i].held == core.held[..|core.held| - 1];
    forall m | m in t.locked ensures exists j :: 0 <= j < |t.cores| && m in t.cores[j].held {
      var j :| 0 <= j < |s.cores| && m in s.cores[j].held;
      assert m in t.cores[j].held;
    }
  }

  lemma ReleaseKeepsConsole(s: State, i: nat, programs: seq<seq<Action>>)
    requires Inv(s, programs) && CanStep(s, i) && s.cores[i].todo[0].Release?
    ensures var t := Step(s, i); ConsoleWhole(t) && PrintsPrograms(t, programs)
  {
    hide Disciplined, By, Flatten, AllDisciplined;
    var t := Step(s, i);
    var core := s.cores[i];
    var l := core.todo[0].l;
    HeadOf(s, i);
    assert l in core.held;
    forall j | 0 <= j < |s.cores|
      ensures By(t.printed, j) + Texts(t.cores[j].todo, t.cores[j].text) == Texts(programs[j], "")
    {
      PrintedBy(s.printed, i, core.text, j);
    }
    PrintedBy(s.printed, i, core.text, i);
    forall j | 0 <= j < |t.cores| && Printf in t.cores[j].held
      ensures t.console == Flatten(t.printed) + t.cores[j].text
    {
      assert j != i ==> Printf in s.cores[j].held;
      StillHeld(s, i, Printf);
    }
  }

  lemma HeadOf(s: State, i: nat)
    requires AllDisciplined(s) && i < |s.cores| && s.cores[i].todo != []
    ensures var todo, held := s.cores[i].todo, s.cores[i].held;
            && (todo[0].Acquire? ==> Above(held, todo[0].l))
            && (todo[0].Release? ==> held != [] && held[|held| - 1] == todo[0].l)
            && (todo[0].Emit? ==> Printf in held)
  {
    DisciplinedHead(s.cores[i].todo, s.cores[i].held);
  }

  /** What core i holds after a release it held before, and it is not the lock released. */
  lemma StillHeld(s: State, i: nat, m: Lock)
    requires HeldOnce(s) && CanStep(s, i) && s.cores[i].todo[0].Release?
    requires s.cores[i].held != [] && s.cores[i].held[|s.cores[i].held| - 1] == s.cores[i].todo[0].l
    ensures m in Step(s, i).cores[i].held ==> m in s.cores[i].held && m != s.cores[i].todo[0].l
  {
    var held := s.cores[i].held;
    var last := |held| - 1;
    assert Step(s, i).cores[i].held == held[..last];
    forall k | 0 <= k < last ensures held[k] != held[last] {
      assert Rank(held[k]) < Rank(held[last]);
    }
  }

  lemma EmitKeepsInv(s: State, i: nat, programs: seq<seq<Action>>)
    requires Inv(s, programs) && CanStep(s, i) && s.cores[i].todo[0].Emit?
    ensures Inv(Step(s, i), programs)
  {
    hide Disciplined, By, Flatten;
    var t := Step(s, i);
    var core := s.cores[i];
    DisciplinedHead(core.todo, core.held);
    assert forall j :: 0 <= j < |s.cores| ==> t.cores[j].held == s.cores[j].held;
    forall m | m in t.locked ensures exists j :: 0 <= j < |t.cores| && m in t.cores[j].held {
      var j :| 0 <= j < |s.cores| && m in s.cores[j].held;
      assert m in t.cores[j].held;
    }
    assert Printf in s.locked;
    assert t.console == Flatten(s.printed) + (core.text + [core.todo[0].c]);
  }

  lemma StepKeepsInv(s: State, i: nat, programs: seq<seq<Action>>)
    requires Inv(s, programs)
    ensures Inv(Step(s, i), programs)
  {
    if CanStep(s, i) {
      hide Inv;
      match s.cores[i].todo[0]
      case Acquire(_) =>
        AcquireKeepsLocks(s, i, programs);
        AcquireKeepsHolders(s, i, programs);
        AcquireKeepsConsole(s, i, programs);
        InvParts(Step(s, i), programs);
      case Release(_) =>
        ReleaseKeepsLocks(s, i, programs);
        ReleaseKeepsFlags(s, i, programs);
        ReleaseKeepsHolders(s, i, programs);
        ReleaseKeepsConsole(s, i, programs);
        InvParts(Step(s, i), programs);
      case Emit(_) => EmitKeepsInv(s, i, programs);
    }
  }

  lemma InvParts(s: State, programs: seq<seq<Action>>)
    requires HeldIsLocked(s) && LockedIsHeld(s) && HeldOnce(s) && AllDisciplined(s)
    requires ConsoleWhole(s) && PrintsPrograms(s, programs)
    ensures Inv(s, programs)
  {
  }

  lemma {:induction false} RunKeepsInv(s: State, schedule: seq<nat>, programs: seq<seq<Action>>)
    requires Inv(s, programs)
    ensures Inv(Run(s, schedule), programs)
  {
    if schedule != [] {
      hide Inv;
      RunKeepsInv(s, schedule[..|schedule| - 1], programs);
      StepKeepsInv(Run(s, schedule[..|schedule| - 1]), schedule[|schedule| - 1], programs);
    }
  }

  // ---------------------------------------------------------------- no deadlock

  /** From a core that waits, follow the lock to its holder: the locks waited for rise in rank, so some
      holder does not wait. */
  lemma {:induction false} SomeCoreSteps(s: State, i: nat, programs: seq<seq<Action>>) returns (j: nat)
    requires Inv(s, programs) && i < |s.cores| && s.cores[i].todo != []
    ensures CanStep(s, j)
    decreases if Spins(s, i) then 6 - Rank(s.cores[i].todo[0].l) else 0
  {
    hide By, Flatten, Texts, Disciplined;
    if !Spins(s, i) {
      j := i;
    } else {
      var l := s.cores[i].todo[0].l;
      var h :| 0 <= h < |s.cores| && l in s.cores[h].held;
      HolderIsBusy(s, h);
      if Spins(s, h) { HeadOf(s, h); }
      j := SomeCoreSteps(s, h, programs);
    }
  }

  lemma HolderIsBusy(s: State, h: nat)
    requires AllDisciplined(s) && h < |s.cores| && s.cores[h].held != []
    ensures s.cores[h].todo != []
  {
    assert Disciplined(s.cores[h].todo, s.cores[h].held);
  }

  // ---------------------------------------------------------------- the theorems

  predicate Done(s: State) {
    forall i :: 0 <= i < |s.cores| ==> s.cores[i].todo == []
  }

  function Programs(calls: seq<seq<Call>>): seq<seq<Action>> {
    seq(|calls|, i requires 0 <= i < |calls| => Program(calls[i]))
  }

  /** In every interleaving each lock has at most one holder, and while any core has work left some core
      can take a step that is not a failed test-and-set. */
  lemma LocksAreSafe(calls: seq<seq<Call>>, schedule: seq<nat>)
    ensures var s := Run(Start(Programs(calls)), schedule);
            && HeldOnce(s) && HeldIsLocked(s) && LockedIsHeld(s)
            && (Done(s) || exists j: nat :: CanStep(s, j))
  {
    hide Disciplined, By, Flatten, Texts, Program;
    var programs := Programs(calls);
    ReachableInv(calls, schedule);
    var s := Run(Start(programs), schedule);
    if !Done(s) {
      var i :| 0 <= i < |s.cores| && s.cores[i].todo != [];
      var j := SomeCoreSteps(s, i, programs);
    }
  }

  lemma ReachableInv(calls: seq<seq<Call>>, schedule: seq<nat>)
    ensures Inv(Run(Start(Programs(calls)), schedule), Programs(calls))
  {
    hide Inv, Disciplined, Program;
    forall i | 0 <= i < |calls| ensures Disciplined(Programs(calls)[i], []) { ProgramIsDisciplined(calls[i]); }
    StartInv(Programs(calls));
    RunKeepsInv(Start(Programs(calls)), schedule, Programs(calls));
  }

  /** In every interleaving the console is whole printf texts one after the other, then what the holder of the
      printf lock has emitted of its own; what a core has finished is the first of its calls' texts, in its order,
      and at the end all of them. */
  lemma PrintfsAreContiguous(calls: seq<seq<Call>>, schedule: seq<nat>)
    ensures var s := Run(Start(Programs(calls)), schedule);
            && |s.cores| == |calls|
            && ConsoleWhole(s)
            && (forall i :: 0 <= i < |calls| ==> By(s.printed, i) <= CallTexts(calls[i]))
            && (Done(s) ==>
                 && s.console == Flatten(s.printed)
                 && forall i :: 0 <= i < |calls| ==> By(s.printed, i) == CallTexts(calls[i]))
  {
    hide Disciplined, By, Flatten, Texts, Program, CallTexts;
    ReachableInv(calls, schedule);
    var s := Run(Start(Programs(calls)), schedule);
    forall i | 0 <= i < |calls|
      ensures CallTexts(calls[i]) == By(s.printed, i) + Texts(s.cores[i].todo, s.cores[i].text)
    {
      ProgramTexts(calls[i]);
    }
    if Done(s) {
      NothingLocked(s);
      forall i | 0 <= i < |calls| ensures By(s.printed, i) == CallTexts(calls[i]) {
        TextsOfNothing(s.cores[i].text);
        assert By(s.printed, i) + [] == By(s.printed, i);
      }
    }
  }

  lemma NothingLocked(s: State)
    requires Done(s) && AllDisciplined(s) && LockedIsHeld(s)
    ensures s.locked == {}
  {
    forall i | 0 <= i < |s.cores| ensures s.cores[i].held == [] {
      assert Disciplined(s.cores[i].todo, s.cores[i].held);
    }
  }

  lemma TextsOfNothing(text: string)
    ensures Texts([], text) == []
  {
  }

  /** The texts a list of calls prints, in order. */
  function CallTexts(calls: seq<Call>): seq<string> {
    if calls == [] then []
    else TextsOfCall(calls[0]) + CallTexts(calls[1..])
  }

  lemma {:induction false} DriverTexts(n: nat, rest: seq<Action>, t: string)
    ensures Texts(DriverCalls(n) + rest, t) == Texts(rest, t)
  {
    if n == 0 {
      assert DriverCalls(0) + rest == rest;
    } else {
      var more := DriverCalls(n - 1) + rest;
      DriverTexts(n - 1, rest, t);
      assert (DriverCalls(n) + rest)[1..] == [Release(Efifb)] + more;
      assert ([Release(Efifb)] + more)[1..] == more;
    }
  }

  lemma TextsOfCharacter(c: char, rest: seq<Action>, t: string)
    ensures Texts([Emit(c)] + rest, t) == Texts(rest, t + [c])
  {
    assert ([Emit(c)] + rest)[1..] == rest;
  }

  lemma TerminalTexts(draws: seq<nat>, rest: seq<Action>, t: string)
    ensures Texts(TerminalActions(draws) + rest, t) == Texts(rest, t)
  {
    hide DriverCalls;
    if draws == [] {
      assert TerminalActions(draws) + rest == rest;
    } else {
      var tail := [Release(Fbtty)] + rest;
      var body := DriverCalls(draws[0]) + tail;
      assert TerminalActions(draws) + rest == [Acquire(Fbtty)] + body;
      assert ([Acquire(Fbtty)] + body)[1..] == body && tail[1..] == rest;
      DriverTexts(draws[0], tail, t);
    }
  }

  lemma {:induction false} CharacterTexts(text: Text, rest: seq<Action>, t: string)
    ensures Texts(TextActions(text) + rest, t) == Texts(rest, t + text.chars)
    decreases |text.chars|
  {
    hide Texts, TerminalActions;
    if text.chars == "" {
      assert TextActions(text) + rest == rest && t + text.chars == t;
    } else {
      var c, more := text.chars[0], TextActions(Rest(text)) + rest;
      CharacterTexts(Rest(text), rest, t + [c]);
      assert t + [c] + Rest(text).chars == t + text.chars;
      TextActionsHead(text, rest);
      TextsOfCharacter(c, TerminalActions(text.draws) + more, t);
      TerminalTexts(text.draws, more, t + [c]);
    }
  }

  lemma PrintfTexts(text: Text, rest: seq<Action>)
    ensures Texts(PrintfActions(text) + rest, "") == [text.chars] + Texts(rest, "")
  {
    hide TextActions;
    var tail := [Release(Printf)] + rest;
    var body := TextActions(text) + tail;
    assert PrintfActions(text) + rest == [Acquire(Printf)] + body;
    assert ([Acquire(Printf)] + body)[1..] == body && tail[1..] == rest && "" + text.chars == text.chars;
    CharacterTexts(text, tail, "");
  }

  /** The characters of some texts. */
  function CharsOf(texts: seq<Text>): seq<string> {
    if texts == [] then [] else [texts[0].chars] + CharsOf(texts[1..])
  }

  lemma {:induction false} PrintsTexts(texts: seq<Text>, rest: seq<Action>)
    ensures Texts(Prints(texts) + rest, "") == CharsOf(texts) + Texts(rest, "")
  {
    hide Texts, PrintfActions;
    if texts == [] {
      assert Prints(texts) + rest == rest && [] + Texts(rest, "") == Texts(rest, "");
    } else {
      var more := Prints(texts[1..]) + rest;
      PrintsTexts(texts[1..], rest);
      PrintfTexts(texts[0], more);
      assert PrintfActions(texts[0]) + more == Prints(texts) + rest;
      assert [texts[0].chars] + (CharsOf(texts[1..]) + Texts(rest, "")) == CharsOf(texts) + Texts(rest, "");
    }
  }

  /** Actions between taking and releasing another lock print what the inner ones print. */
  lemma WrappedTexts(l: Lock, inner: seq<Action>, rest: seq<Action>)
    requires l != Printf
    ensures Texts([Acquire(l)] + inner + [Release(l)] + rest, "") == Texts(inner + ([Release(l)] + rest), "")
    ensures Texts([Release(l)] + rest, "") == Texts(rest, "")
  {
    assert ([Acquire(l)] + inner + [Release(l)] + rest)[1..] == inner + ([Release(l)] + rest);
    assert ([Release(l)] + rest)[1..] == rest;
  }

  lemma LockedTexts(l: Lock, texts: seq<Text>, rest: seq<Action>)
    requires l != Printf
    ensures Texts(Locked(l, texts) + rest, "") == CharsOf(texts) + Texts(rest, "")
  {
    hide Texts, Prints;
    WrappedTexts(l, Prints(texts), rest);
    PrintsTexts(texts, [Release(l)] + rest);
  }

  /** A section that prints nothing. */
  lemma SilentTexts(l: Lock, rest: seq<Action>)
    requires l != Printf
    ensures Texts(Locked(l, []) + rest, "") == Texts(rest, "")
  {
    hide Texts, Locked;
    LockedTexts(l, [], rest);
    assert CharsOf([]) + Texts(rest, "") == Texts(rest, "");
  }

  lemma {:induction false} TableTexts(n: nat, report: Option<Text>, rest: seq<Action>)
    ensures Texts(TableActions(n, report) + rest, "") == CharsOf(Reports(report)) + Texts(rest, "")
    decreases n
  {
    hide Texts, Locked;
    if n > 0 {
      var more := TableActions(n - 1, report);
      TableTexts(n - 1, report, rest);
      SilentTexts(Mm, more + rest);
      assert Locked(Mm, []) + (more + rest) == TableActions(n, report) + rest;
    } else if report.Some? {
      LockedTexts(Mm, Reports(report), rest);
    } else {
      assert TableActions(n, report) + rest == rest;
      assert CharsOf([]) + Texts(rest, "") == Texts(rest, "");
    }
  }

  /** What a call prints. */
  function TextsOfCall(call: Call): seq<string> {
    match call
    case PrintfCall(text) => [text.chars]
    case MmInitCall(texts) => CharsOf(texts)
    case KmallocCall(report) => CharsOf(Reports(report))
    case KfreeCall => []
    case KreallocCall(grow, report) => if grow then CharsOf(Reports(report)) else []
    case MapCall(_, report) => CharsOf(Reports(report))
    case UnmapCall => []
    case SmpInitCall(text) => CharsOf([text])
    case ApStartupCall => []
  }

  lemma KreallocTexts(grow: bool, report: Option<Text>, rest: seq<Action>)
    ensures var call := KreallocCall(grow, report);
            Texts(CallActions(call) + rest, "") == TextsOfCall(call) + Texts(rest, "")
  {
    hide Texts, Locked;
    var free := Locked(Mm, []) + rest;
    SilentTexts(Mm, rest);
    if grow {
      var alloc := Locked(Mm, Reports(report));
      LockedTexts(Mm, Reports(report), free);
      SilentTexts(Mm, alloc + free);
      assert Locked(Mm, []) + (alloc + free) == CallActions(KreallocCall(grow, report)) + rest;
    } else {
      assert free == CallActions(KreallocCall(grow, report)) + rest;
      assert [] + Texts(rest, "") == Texts(rest, "");
    }
  }

  lemma MapTexts(tables: nat, report: Option<Text>, rest: seq<Action>)
    ensures var call := MapCall(tables, report);
            Texts(CallActions(call) + rest, "") == TextsOfCall(call) + Texts(rest, "")
  {
    hide Texts, TableActions;
    WrappedTexts(Pagemap, TableActions(tables, report), rest);
    TableTexts(tables, report, [Release(Pagemap)] + rest);
  }

  lemma CallPrints(call: Call, rest: seq<Action>)
    ensures Texts(CallActions(call) + rest, "") == TextsOfCall(call) + Texts(rest, "")
  {
    hide Texts, PrintfActions, Locked, CharsOf;
    assert [] + Texts(rest, "") == Texts(rest, "");
    match call
    case PrintfCall(text) => PrintfTexts(text, rest);
    case MmInitCall(texts) => LockedTexts(Mm, texts, rest);
    case KmallocCall(report) => LockedTexts(Mm, Reports(report), rest);
    case KfreeCall => SilentTexts(Mm, rest);
    case KreallocCall(grow, report) => KreallocTexts(grow, report, rest);
    case MapCall(tables, report) => MapTexts(tables, report, rest);
    case UnmapCall => SilentTexts(Pagemap, rest);
    case SmpInitCall(text) => LockedTexts(ApRunning, [text], rest);
    case ApStartupCall => SilentTexts(ApRunning, rest);
  }

  lemma {:induction false} ProgramTexts(calls: seq<Call>)
    ensures Texts(Program(calls), "") == CallTexts(calls)
  {
    if calls != [] {
      ProgramTexts(calls[1..]);
      CallPrints(calls[0], Program(calls[1..]));
    }
  }

  /** From every reachable state some schedule of steps brings all calls to their end. */
  lemma {:induction false} AllCallsCanFinish(s: State, programs: seq<seq<Action>>) returns (schedule: seq<nat>)
    requires Inv(s, programs)
    ensures Done(Run(s, schedule))
    decreases Remaining(s.cores)
  {
    hide Inv;
    if Done(s) {
      schedule := [];
    } else {
      var i :| 0 <= i < |s.cores| && s.cores[i].todo != [];
      var j := SomeCoreSteps(s, i, programs);
      StepKeepsInv(s, j, programs);
      StepUsesAction(s, j);
      var more := AllCallsCanFinish(Step(s, j), programs);
      schedule := [j] + more;
      RunFromFirst(s, j, more);
    }
  }

  function Remaining(cores: seq<Core>): nat {
    if cores == [] then 0 else |cores[0].todo| + Remaining(cores[1..])
  }

  lemma {:induction false} RemainingAfter(cores: seq<Core>, i: nat, core: Core)
    requires i < |cores|
    ensures Remaining(cores[i := core]) == Remaining(cores) - |cores[i].todo| + |core.todo|
  {
    if i == 0 {
      assert cores[0 := core][1..] == cores[1..];
    } else {
      assert cores[i := core][1..] == cores[1..][i - 1 := core];
      RemainingAfter(cores[1..], i - 1, core);
    }
  }

  lemma StepUsesAction(s: State, i: nat)
    requires CanStep(s, i)
    ensures Remaining(Step(s, i).cores) < Remaining(s.cores)
  {
    RemainingAfter(s.cores, i, Step(s, i).cores[i]);
    assert Step(s, i).cores == s.cores[i := Step(s, i).cores[i]];
  }

  lemma {:induction false} RunFromFirst(s: State, i: nat, schedule: seq<nat>)
    ensures Run(s, [i] + schedule) == Run(Step(s, i), schedule)
  {
    if schedule == [] {
      assert [i] + schedule == [i] && [i][..0] == [];
    } else {
      var all := [i] + schedule;
      assert all[..|all| - 1] == [i] + schedule[..|schedule| - 1];
      RunFromFirst(s, i, schedule[..|schedule| - 1]);
    }
  }
}

/** Which locks each call takes, and what it does under them. */
module LockLaws {
  import opened Common
  import opened PrintfSpec
  import opened Locks

  // ---------------------------------------------------------------- the locks that guard data

  /** The locks of the starting cores, of the page maps and of the allocator; the others guard the console. */
  predicate GuardsData(l: Lock) {
    l == ApRunning || l == Pagemap || l == Mm
  }

  /** What a list of actions does with these locks, in order. */
  function DataOps(actions: seq<Action>): seq<Action> {
    if actions == [] then []
    else
      (if !actions[0].Emit? && GuardsData(actions[0].l) then [actions[0]] else []) + DataOps(actions[1..])
  }

  lemma {:induction false} DataOpsConcat(a: seq<Action>, b: seq<Action>)
    ensures DataOps(a + b) == DataOps(a) + DataOps(b)
  {
    if a == [] {
      assert a + b == b;
    } else {
      assert (a + b)[1..] == a[1..] + b;
      DataOpsConcat(a[1..], b);
    }
  }

  lemma DataOpsOne(a: Action)
    ensures DataOps([a]) == if !a.Emit? && GuardsData(a.l) then [a] else []
  {
    assert [a][1..] == [] && DataOps([]) == [];
  }

  lemma {:induction false} DriverOps(n: nat)
    ensures DataOps(DriverCalls(n)) == []
  {
    if n > 0 {
      DriverOps(n - 1);
      assert DriverCalls(n)[1..] == [Release(Efifb)] + DriverCalls(n - 1);
      assert ([Release(Efifb)] + DriverCalls(n - 1))[1..] == DriverCalls(n - 1);
    }
  }

  lemma {:induction false} TextOps(text: Text)
    ensures DataOps(TextActions(text)) == []
    decreases |text.chars|
  {
    hide DataOps;
    NoOps();
    if text.chars != "" {
      var c, shown := [Emit(text.chars[0])], TerminalActions(text.draws);
      TextOps(Rest(text));
      DataOpsOne(Emit(text.chars[0]));
      DataOpsOne(Acquire(Fbtty));
      DataOpsOne(Release(Fbtty));
      DataOpsConcat(c + shown, TextActions(Rest(text)));
      DataOpsConcat(c, shown);
      if text.draws != [] {
        DriverOps(text.draws[0]);
        DataOpsConcat([Acquire(Fbtty)] + DriverCalls(text.draws[0]), [Release(Fbtty)]);
        DataOpsConcat([Acquire(Fbtty)], DriverCalls(text.draws[0]));
      }
    }
  }

  lemma NoOps()
    ensures DataOps([]) == []
  {
  }

  lemma PrintfOps(text: Text)
    ensures DataOps(PrintfActions(text)) == []
  {
    hide DataOps, TextActions;
    TextOps(text);
    DataOpsOne(Acquire(Printf));
    DataOpsOne(Release(Printf));
    DataOpsConcat([Acquire(Printf)] + TextActions(text), [Release(Printf)]);
    DataOpsConcat([Acquire(Printf)], TextActions(text));
  }

  lemma {:induction false} PrintsOps(texts: seq<Text>)
    ensures DataOps(Prints(texts)) == []
  {
    hide DataOps, PrintfActions;
    NoOps();
    if texts != [] {
      PrintsOps(texts[1..]);
      PrintfOps(texts[0]);
      DataOpsConcat(PrintfActions(texts[0]), Prints(texts[1..]));
    }
  }

  lemma LockedOps(l: Lock, texts: seq<Text>)
    requires GuardsData(l)
    ensures DataOps(Locked(l, texts)) == [Acquire(l), Release(l)]
  {
    hide DataOps, Prints;
    PrintsOps(texts);
    DataOpsOne(Acquire(l));
    DataOpsOne(Release(l));
    DataOpsConcat([Acquire(l)] + Prints(texts), [Release(l)]);
    DataOpsConcat([Acquire(l)], Prints(texts));
  }

  /** n sections of the allocator. */
  function Sections(n: nat): seq<Action> {
    if n == 0 then [] else [Acquire(Mm), Release(Mm)] + Sections(n - 1)
  }

  lemma {:induction false} TableOps(n: nat, report: Option<Text>)
    ensures DataOps(TableActions(n, report)) == Sections(n + if report.Some? then 1 else 0)
    decreases n
  {
    hide DataOps, Locked;
    NoOps();
    if n > 0 {
      TableOps(n - 1, report);
      LockedOps(Mm, []);
      DataOpsConcat(Locked(Mm, []), TableActions(n - 1, report));
    } else if report.Some? {
      LockedOps(Mm, Reports(report));
      assert Sections(1) == [Acquire(Mm), Release(Mm)] + Sections(0);
    }
  }

  /** Every call takes the lock of its data, once: the allocator's calls its own, except that a growing krealloc
      takes it for the lookup, the kmalloc and the kfree, one after the other; a map the page maps' and under it
      the allocator's for each table it asks for, the one it does not get included. */
  lemma CallTakesLocks(call: Call)
    ensures DataOps(CallActions(call)) == match call
      case PrintfCall(_) => []
      case MmInitCall(_) => [Acquire(Mm), Release(Mm)]
      case KmallocCall(_) => [Acquire(Mm), Release(Mm)]
      case KfreeCall => [Acquire(Mm), Release(Mm)]
      case KreallocCall(grow, _) =>
        if grow then [Acquire(Mm), Release(Mm), Acquire(Mm), Release(Mm), Acquire(Mm), Release(Mm)]
        else [Acquire(Mm), Release(Mm)]
      case MapCall(tables, report) =>
        [Acquire(Pagemap)] + Sections(tables + if report.Some? then 1 else 0) + [Release(Pagemap)]
      case UnmapCall => [Acquire(Pagemap), Release(Pagemap)]
      case SmpInitCall(_) => [Acquire(ApRunning), Release(ApRunning)]
      case ApStartupCall => [Acquire(ApRunning), Release(ApRunning)]
  {
    hide DataOps, Locked, PrintfActions, TableActions, Sections;
    match call
    case PrintfCall(text) => PrintfOps(text);
    case MmInitCall(texts) => LockedOps(Mm, texts);
    case KmallocCall(report) => LockedOps(Mm, Reports(report));
    case KfreeCall => LockedOps(Mm, []);
    case KreallocCall(grow, report) => KreallocOps(grow, report);
    case MapCall(tables, report) =>
      TableOps(tables, report);
      DataOpsOne(Acquire(Pagemap));
      DataOpsOne(Release(Pagemap));
      DataOpsConcat([Acquire(Pagemap)] + TableActions(tables, report), [Release(Pagemap)]);
      DataOpsConcat([Acquire(Pagemap)], TableActions(tables, report));
    case UnmapCall => LockedOps(Pagemap, []);
    case SmpInitCall(text) => LockedOps(ApRunning, [text]);
    case ApStartupCall => LockedOps(ApRunning, []);
  }

  lemma KreallocOps(grow: bool, report: Option<Text>)
    ensures DataOps(CallActions(KreallocCall(grow, report))) ==
            if grow then [Acquire(Mm), Release(Mm), Acquire(Mm), Release(Mm), Acquire(Mm), Release(Mm)]
            else [Acquire(Mm), Release(Mm)]
  {
    hide DataOps, Locked;
    var lookup, alloc, free := Locked(Mm, []), Locked(Mm, Reports(report)), Locked(Mm, []);
    NoOps();
    LockedOps(Mm, []);
    LockedOps(Mm, Reports(report));
    DataOpsConcat(lookup, alloc + free);
    DataOpsConcat(alloc, free);
    DataOpsConcat(lookup, []);
  }

  /** What a call does besides it does between taking the first lock and releasing the last. */
  lemma CallIsInside(call: Call)
    ensures var actions := CallActions(call);
            && |actions| >= 2
            && actions[0] == Acquire(if call.PrintfCall? then Printf else DataLock(call))
            && actions[|actions| - 1] == Release(if call.PrintfCall? then Printf else DataLock(call))
  {
    hide Prints, TextActions, TableActions;
  }

  function DataLock(call: Call): Lock {
    if call.MapCall? || call.UnmapCall? then Pagemap
    else if call.SmpInitCall? || call.ApStartupCall? then ApRunning
    else Mm
  }

  // ---------------------------------------------------------------- the locks that guard the console

  function SumOf(draws: seq<nat>, n: nat): nat {
    if n == 0 || draws == [] then 0 else draws[0] + SumOf(draws[1..], n - 1)
  }

  /** How often an action occurs, and the characters emitted. */
  function Count(actions: seq<Action>, a: Action): nat {
    if actions == [] then 0 else (if actions[0] == a then 1 else 0) + Count(actions[1..], a)
  }

  function Emitted(actions: seq<Action>): string {
    if actions == [] then ""
    else (if actions[0].Emit? then [actions[0].c] else "") + Emitted(actions[1..])
  }

  lemma {:induction false} CountConcat(a: seq<Action>, b: seq<Action>, x: Action)
    ensures Count(a + b, x) == Count(a, x) + Count(b, x)
  {
    if a == [] {
      assert a + b == b;
    } else {
      assert (a + b)[1..] == a[1..] + b;
      CountConcat(a[1..], b, x);
    }
  }

  lemma {:induction false} EmittedConcat(a: seq<Action>, b: seq<Action>)
    ensures Emitted(a + b) == Emitted(a) + Emitted(b)
  {
    if a == [] {
      assert a + b == b && "" + Emitted(b) == Emitted(b);
    } else {
      EmittedConcat(a[1..], b);
      EmittedFirst(a, b);
      Associates(if a[0].Emit? then [a[0].c] else "", Emitted(a[1..]), Emitted(b));
    }
  }

  lemma EmittedFirst(a: seq<Action>, b: seq<Action>)
    requires a != []
    ensures Emitted(a + b) == (if a[0].Emit? then [a[0].c] else "") + Emitted(a[1..] + b)
  {
    assert (a + b)[1..] == a[1..] + b;
  }

  /** What actions that show text do on the console: how often they take each lock, and the characters. */
  ghost predicate Shows(actions: seq<Action>, printf: nat, fbtty: nat, efifb: nat, chars: string) {
    && Count(actions, Acquire(Printf)) == printf && Count(actions, Acquire(Fbtty)) == fbtty
    && Count(actions, Acquire(Efifb)) == efifb && Emitted(actions) == chars
  }

  lemma ShowsConcat(a: seq<Action>, b: seq<Action>, p: nat, q: nat, f: nat, g: nat, e: nat, h: nat, s: string,
                    t: string)
    requires Shows(a, p, f, e, s) && Shows(b, q, g, h, t)
    ensures Shows(a + b, p + q, f + g, e + h, s + t)
  {
    hide Count, Emitted;
    CountConcat(a, b, Acquire(Printf));
    CountConcat(a, b, Acquire(Fbtty));
    CountConcat(a, b, Acquire(Efifb));
    EmittedConcat(a, b);
  }

  lemma ShowsOne(a: Action)
    ensures Shows([a], if a == Acquire(Printf) then 1 else 0, if a == Acquire(Fbtty) then 1 else 0,
                  if a == Acquire(Efifb) then 1 else 0, if a.Emit? then [a.c] else "")
    ensures Shows([], 0, 0, 0, "")
  {
    assert [a][1..] == [] && Count([], a) == 0 && Emitted([]) == "";
  }

  lemma {:induction false} DriverShows(n: nat)
    ensures Shows(DriverCalls(n), 0, 0, n, "")
  {
    hide Shows;
    ShowsOne(Acquire(Efifb));
    ShowsOne(Release(Efifb));
    assert "" + "" == "";
    if n > 0 {
      DriverShows(n - 1);
      ShowsConcat([Acquire(Efifb)], [Release(Efifb)], 0, 0, 0, 0, 1, 0, "", "");
      ShowsConcat([Acquire(Efifb)] + [Release(Efifb)], DriverCalls(n - 1), 0, 0, 0, 0, 1, n - 1, "", "");
      assert [Acquire(Efifb)] + [Release(Efifb)] == [Acquire(Efifb), Release(Efifb)];
    }
  }

  lemma TerminalShows(draws: seq<nat>)
    ensures Shows(TerminalActions(draws), 0, if draws == [] then 0 else 1, if draws == [] then 0 else draws[0], "")
  {
    hide Shows, DriverCalls;
    ShowsOne(Acquire(Fbtty));
    ShowsOne(Release(Fbtty));
    assert "" + "" == "";
    if draws != [] {
      DriverShows(draws[0]);
      ShowsConcat([Acquire(Fbtty)], DriverCalls(draws[0]), 0, 0, 1, 0, 0, draws[0], "", "");
      ShowsConcat([Acquire(Fbtty)] + DriverCalls(draws[0]), [Release(Fbtty)], 0, 0, 1, 0, draws[0], 0, "", "");
    }
  }

  lemma {:induction false} TextShows(text: Text)
    ensures Shows(TextActions(text), 0, Min(|text.chars|, |text.draws|), SumOf(text.draws, |text.chars|), text.chars)
    decreases |text.chars|
  {
    hide Shows, TerminalActions;
    if text.chars == "" {
      ShowsOne(Acquire(Printf));
    } else {
      var c, shown, more := [Emit(text.chars[0])], TerminalActions(text.draws), TextActions(Rest(text));
      var f, e := if text.draws == [] then 0 else 1, if text.draws == [] then 0 else text.draws[0];
      TextShows(Rest(text));
      TerminalShows(text.draws);
      ShowsOne(Emit(text.chars[0]));
      ShowsConcat(c, shown, 0, 0, 0, f, 0, e, [text.chars[0]], "");
      ShowsConcat(c + shown, more, 0, 0, f, Min(|Rest(text).chars|, |Rest(text).draws|), e,
                  SumOf(Rest(text).draws, |Rest(text).chars|), [text.chars[0]] + "", Rest(text).chars);
      assert [text.chars[0]] + "" + Rest(text).chars == text.chars;
    }
  }

  /** Printing takes the printf lock once, the terminal's once for each character it shows, and the framebuffer's
      once for each driver call; every character is emitted once, in order. */
  lemma PrintfTakesLocks(text: Text)
    ensures var actions := PrintfActions(text);
            && Count(actions, Acquire(Printf)) == 1
            && Count(actions, Acquire(Fbtty)) == Min(|text.chars|, |text.draws|)
            && Count(actions, Acquire(Efifb)) == SumOf(text.draws, |text.chars|)
            && Emitted(actions) == text.chars
  {
    hide TextActions, Count, Emitted;
    var f, e := Min(|text.chars|, |text.draws|), SumOf(text.draws, |text.chars|);
    TextShows(text);
    ShowsOne(Acquire(Printf));
    ShowsOne(Release(Printf));
    ShowsConcat([Acquire(Printf)], TextActions(text), 1, 0, 0, f, 0, e, "", text.chars);
    ShowsConcat([Acquire(Printf)] + TextActions(text), [Release(Printf)], 1, 0, f, 0, e, 0, "" + text.chars, "");
    assert "" + text.chars + "" == text.chars;
  }
}

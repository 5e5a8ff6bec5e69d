/** Test-and-set locks under any interleaving of cores: what nested acquisition in a fixed order gives. */
module Locks {
  import opened Common

  datatype Lock = ApRunning | Pagemap | Mm | Printf | Fbtty | Efifb

  /** The order in which the kernel nests its locks. */
  function Rank(l: Lock): nat {
    match l
    case ApRunning => 0
    case Pagemap => 1
    case Mm => 2
    case Printf => 3
    case Fbtty => 4
    case Efifb => 5
  }

  /** What a core does that other cores can notice: one lock operation, or one character on the console. */
  datatype Action = Acquire(l: Lock) | Release(l: Lock) | Emit(c: char)

  // ---------------------------------------------------------------- the kernel's calls as actions

  /** What a printf prints, and for each character how many calls of the framebuffer driver the terminal makes
      for it: one for each pixel of a glyph, none for most newlines, three for a scroll.  Characters beyond the
      list are printed before the terminal is there, on the serial line only. */
  datatype Text = Text(chars: string, draws: seq<nat>)

  /** What the kernel calls do, down to their locks.  kmalloc reports a failure with a printf; vmm_map_page
      allocates missing tables, up to the first that gets no page; mm_init prints while it holds its lock. */
  datatype Call =
    | PrintfCall(text: Text)
    | MmInitCall(texts: seq<Text>)
    | KmallocCall(report: Option<Text>)
    | KfreeCall
    | KreallocCall(grow: bool, report: Option<Text>)
    | MapCall(tables: nat, report: Option<Text>)
    | UnmapCall
    | SmpInitCall(text: Text)
    | ApStartupCall

  function DriverCalls(n: nat): seq<Action> {
    if n == 0 then [] else [Acquire(Efifb), Release(Efifb)] + DriverCalls(n - 1)
  }

  /** `fbtty_putchar`, when the terminal is there. */
  function TerminalActions(draws: seq<nat>): seq<Action> {
    if draws == [] then [] else [Acquire(Fbtty)] + DriverCalls(draws[0]) + [Release(Fbtty)]
  }

  function Rest(text: Text): Text {
    Text(if text.chars == "" then "" else text.chars[1..], if text.draws == [] then [] else text.draws[1..])
  }

  /** `_putchar` for each character: the serial line, then the terminal. */
  function TextActions(text: Text): seq<Action>
    decreases |text.chars|
  {
    if text.chars == "" then [] else [Emit(text.chars[0])] + TerminalActions(text.draws) + TextActions(Rest(text))
  }

  function PrintfActions(text: Text): seq<Action> {
    [Acquire(Printf)] + TextActions(text) + [Release(Printf)]
  }

  function Prints(texts: seq<Text>): seq<Action> {
    if texts == [] then [] else PrintfActions(texts[0]) + Prints(texts[1..])
  }

  /** A section under one lock that prints some texts. */
  function Locked(l: Lock, texts: seq<Text>): seq<Action> {
    [Acquire(l)] + Prints(texts) + [Release(l)]
  }

  function Reports(report: Option<Text>): seq<Text> {
    if report.Some? then [report.value] else []
  }

  function TableActions(n: nat, report: Option<Text>): seq<Action> {
    if n > 0 then Locked(Mm, []) + TableActions(n - 1, report)
    else if report.Some? then Locked(Mm, Reports(report))
    else []
  }

  function CallActions(call: Call): seq<Action> {
    match call
    case PrintfCall(text) => PrintfActions(text)
    case MmInitCall(texts) => Locked(Mm, texts)
    case KmallocCall(report) => Locked(Mm, Reports(report))
    case KfreeCall => Locked(Mm, [])
    case KreallocCall(grow, report) =>
      Locked(Mm, []) + (if grow then Locked(Mm, Reports(report)) + Locked(Mm, []) else [])
    case MapCall(tables, report) => [Acquire(Pagemap)] + TableActions(tables, report) + [Release(Pagemap)]
    case UnmapCall => Locked(Pagemap, [])
    case SmpInitCall(text) => Locked(ApRunning, [text])
    case ApStartupCall => Locked(ApRunning, [])
  }

  function Program(calls: seq<Call>): seq<Action> {
    if calls == [] then [] else CallActions(calls[0]) + Program(calls[1..])
  }

  // ---------------------------------------------------------------- discipline

  /** Every lock held ranks below a new one. */
  predicate Above(held: seq<Lock>, l: Lock) {
    forall k :: 0 <= k < |held| ==> Rank(held[k]) < Rank(l)
  }

  /** Locks are taken upwards in rank and released in reverse, characters are emitted under the printf lock,
      and nothing is held at the end. */
  predicate Disciplined(todo: seq<Action>, held: seq<Lock>)
    decreases |todo|
  {
    if todo == [] then held == []
    else match todo[0]
      case Acquire(l) => Above(held, l) && Disciplined(todo[1..], held + [l])
      case Release(l) => held != [] && held[|held| - 1] == l && Disciplined(todo[1..], held[..|held| - 1])
      case Emit(_) => Printf in held && Disciplined(todo[1..], held)
  }

  lemma Nest(l: Lock, inner: seq<Action>, rest: seq<Action>, held: seq<Lock>)
    requires Above(held, l)
    requires Disciplined(inner + ([Release(l)] + rest), held + [l])
    ensures Disciplined([Acquire(l)] + inner + [Release(l)] + rest, held)
  {
    var all := [Acquire(l)] + inner + [Release(l)] + rest;
    assert all[1..] == inner + ([Release(l)] + rest);
  }

  lemma Unnest(l: Lock, rest: seq<Action>, held: seq<Lock>)
    requires Disciplined(rest, held)
    ensures Disciplined([Release(l)] + rest, held + [l])
  {
    assert (held + [l])[..|held + [l]| - 1] == held;
    assert ([Release(l)] + rest)[1..] == rest;
  }

  /** A lock taken and released at once. */
  lemma Pair(l: Lock, rest: seq<Action>, held: seq<Lock>)
    requires Above(held, l) && Disciplined(rest, held)
    ensures Disciplined([Acquire(l), Release(l)] + rest, held)
  {
    Unnest(l, rest, held);
    assert [] + ([Release(l)] + rest) == [Release(l)] + rest;
    Nest(l, [], rest, held);
    assert [Acquire(l)] + [] + [Release(l)] + rest == [Acquire(l), Release(l)] + rest;
  }

  lemma {:induction false} DriverCallsOk(n: nat, rest: seq<Action>, held: seq<Lock>)
    requires Above(held, Efifb) && Disciplined(rest, held)
    ensures Disciplined(DriverCalls(n) + rest, held)
  {
    if n == 0 {
      assert DriverCalls(0) + rest == rest;
    } else {
      DriverCallsOk(n - 1, rest, held);
      Pair(Efifb, DriverCalls(n - 1) + rest, held);
      assert [Acquire(Efifb), Release(Efifb)] + (DriverCalls(n - 1) + rest) == DriverCalls(n) + rest;
    }
  }

  lemma EmitOk(c: char, rest: seq<Action>, held: seq<Lock>)
    requires Printf in held && Disciplined(rest, held)
    ensures Disciplined([Emit(c)] + rest, held)
  {
    assert ([Emit(c)] + rest)[1..] == rest;
  }

  lemma TerminalOk(draws: seq<nat>, rest: seq<Action>, held: seq<Lock>)
    requires Above(held, Fbtty) && Disciplined(rest, held)
    ensures Disciplined(TerminalActions(draws) + rest, held)
  {
    hide Disciplined, DriverCalls;
    if draws == [] {
      assert TerminalActions(draws) + rest == rest;
    } else {
      Unnest(Fbtty, rest, held);
      DriverCallsOk(draws[0], [Release(Fbtty)] + rest, held + [Fbtty]);
      Nest(Fbtty, DriverCalls(draws[0]), rest, held);
    }
  }

  lemma {:induction false} TextActionsOk(text: Text, rest: seq<Action>, held: seq<Lock>)
    requires Above(held, Fbtty) && Printf in held && Disciplined(rest, held)
    ensures Disciplined(TextActions(text) + rest, held)
    decreases |text.chars|
  {
    hide Disciplined, TerminalActions;
    if text.chars == "" {
      assert TextActions(text) + rest == rest;
    } else {
      var more := TextActions(Rest(text)) + rest;
      TextActionsOk(Rest(text), rest, held);
      TerminalOk(text.draws, more, held);
      EmitOk(text.chars[0], TerminalActions(text.draws) + more, held);
      TextActionsHead(text, rest);
    }
  }

  lemma TextActionsHead(text: Text, rest: seq<Action>)
    requires text.chars != ""
    ensures TextActions(text) + rest ==
            [Emit(text.chars[0])] + (TerminalActions(text.draws) + (TextActions(Rest(text)) + rest))
  {
    hide TerminalActions;
    Reassociate([Emit(text.chars[0])], TerminalActions(text.draws), TextActions(Rest(text)), rest);
  }

  lemma Reassociate<T>(a: seq<T>, b: seq<T>, c: seq<T>, d: seq<T>)
    ensures a + b + c + d == a + (b + (c + d))
  {
  }

  lemma PrintfActionsOk(text: Text, rest: seq<Action>, held: seq<Lock>)
    requires Above(held, Printf) && Disciplined(rest, held)
    ensures Disciplined(PrintfActions(text) + rest, held)
  {
    hide Disciplined, TextActions;
    Unnest(Printf, rest, held);
    TextActionsOk(text, [Release(Printf)] + rest, held + [Printf]);
    Nest(Printf, TextActions(text), rest, held);
  }

  lemma {:induction false} PrintsOk(texts: seq<Text>, rest: seq<Action>, held: seq<Lock>)
    requires Above(held, Printf) && Disciplined(rest, held)
    ensures Disciplined(Prints(texts) + rest, held)
  {
    hide Disciplined, PrintfActions;
    if texts == [] {
      assert Prints(texts) + rest == rest;
    } else {
      PrintsOk(texts[1..], rest, held);
      PrintfActionsOk(texts[0], Prints(texts[1..]) + rest, held);
      assert PrintfActions(texts[0]) + (Prints(texts[1..]) + rest) == Prints(texts) + rest;
    }
  }

  lemma LockedOk(l: Lock, texts: seq<Text>, rest: seq<Action>, held: seq<Lock>)
    requires Above(held, l) && Rank(l) < Rank(Printf) && Disciplined(rest, held)
    ensures Disciplined(Locked(l, texts) + rest, held)
  {
    hide Disciplined, Prints;
    Unnest(l, rest, held);
    PrintsOk(texts, [Release(l)] + rest, held + [l]);
    Nest(l, Prints(texts), rest, held);
  }

  lemma {:induction false} TableActionsOk(n: nat, report: Option<Text>, rest: seq<Action>, held: seq<Lock>)
    requires Above(held, Mm) && Disciplined(rest, held)
    ensures Disciplined(TableActions(n, report) + rest, held)
    decreases n
  {
    hide Disciplined, Locked;
    if n > 0 {
      var more := TableActions(n - 1, report);
      TableActionsOk(n - 1, report, rest, held);
      LockedOk(Mm, [], more + rest, held);
      assert Locked(Mm, []) + (more + rest) == TableActions(n, report) + rest;
    } else if report.Some? {
      LockedOk(Mm, Reports(report), rest, held);
    } else {
      assert TableActions(n, report) + rest == rest;
    }
  }

  lemma KreallocActionsOk(grow: bool, report: Option<Text>, rest: seq<Action>)
    requires Disciplined(rest, [])
    ensures Disciplined(CallActions(KreallocCall(grow, report)) + rest, [])
  {
    hide Disciplined, Locked;
    var first, free := Locked(Mm, []), Locked(Mm, []) + rest;
    LockedOk(Mm, [], rest, []);
    if grow {
      var alloc := Locked(Mm, Reports(report));
      LockedOk(Mm, Reports(report), free, []);
      LockedOk(Mm, [], alloc + free, []);
      assert first + (alloc + free) == CallActions(KreallocCall(grow, report)) + rest;
    } else {
      assert free == CallActions(KreallocCall(grow, report)) + rest;
    }
  }

  lemma MapActionsOk(tables: nat, report: Option<Text>, rest: seq<Action>)
    requires Disciplined(rest, [])
    ensures Disciplined(CallActions(MapCall(tables, report)) + rest, [])
  {
    hide Disciplined, TableActions;
    var inner := TableActions(tables, report);
    Unnest(Pagemap, rest, []);
    assert [] + [Pagemap] == [Pagemap];
    TableActionsOk(tables, report, [Release(Pagemap)] + rest, [Pagemap]);
    Nest(Pagemap, inner, rest, []);
  }

  lemma CallActionsOk(call: Call, rest: seq<Action>)
    requires Disciplined(rest, [])
    ensures Disciplined(CallActions(call) + rest, [])
  {
    hide Disciplined, Locked, PrintfActions;
    match call
    case PrintfCall(text) => PrintfActionsOk(text, rest, []);
    case MmInitCall(texts) => LockedOk(Mm, texts, rest, []);
    case KmallocCall(report) => LockedOk(Mm, Reports(report), rest, []);
    case KfreeCall => LockedOk(Mm, [], rest, []);
    case KreallocCall(grow, report) => KreallocActionsOk(grow, report, rest);
    case MapCall(tables, report) => MapActionsOk(tables, report, rest);
    case UnmapCall => LockedOk(Pagemap, [], rest, []);
    case SmpInitCall(text) => LockedOk(ApRunning, [text], rest, []);
    case ApStartupCall => LockedOk(ApRunning, [], rest, []);
  }

  /** Whatever of these calls a core makes, it nests its locks in the order of their ranks. */
  lemma {:induction false} ProgramIsDisciplined(calls: seq<Call>)
    ensures Disciplined(Program(calls), [])
  {
    if calls != [] {
      ProgramIsDisciplined(calls[1..]);
      CallActionsOk(calls[0], Program(calls[1..]));
    }
  }
}

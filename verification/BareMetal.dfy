/**
 The bare-metal mode query and the shutdown it leads to, one file operation at a
 time. Other processes may create flag files between any two operations. A run
 is the sequence of everything that happened to the flag files.
 */
module BareMetal {
  import opened Bytes
  import opened Ipmi

  /** The BARE_METAL and IPMI_ALLOWLIST build options. */
  datatype Build = Build(bareMetal: bool, allowlist: bool)

  datatype Mode = NonBm | Bm | BmCleaning

  function ModeByte(m: Mode): byte {
    match m case NonBm => 0 case Bm => 1 case BmCleaning => 2
  }

  datatype Flag = Signal | Cleaning | Done | Ack

  datatype Caller = GetMode | BootDone

  /** Where the one query in progress is; Shutdown is a boot-done call past a bare-metal answer. */
  datatype Pc = Idle | AskAck | AskDone | Rename | AskSignal | AskCleaning | Create | Reply(mode: Mode) | Shutdown

  datatype Sys = Sys(flags: set<Flag>, pc: Pc, caller: Caller)

  datatype Event =
    | Begin(caller: Caller)
    | Appeared(flag: Flag)            // another process creates a flag file
    | Saw(flag: Flag, present: bool)  // an existence check and its result
    | Renamed(ok: bool)               // the done flag becomes the ack flag, or stays
    | Made(ok: bool)                  // the cleaning flag is created, or is not
    | Answered(mode: Mode)
    | Started(ok: bool)               // systemd is asked for the bare-metal target
    | Abandoned                       // the call to systemd cannot be built
    | Refused                         // the allowlist build throws instead

  function Asks(flag: Flag): Pc {
    match flag case Ack => AskAck case Done => AskDone case Signal => AskSignal case Cleaning => AskCleaning
  }

  predicate Enabled(b: Build, s: Sys, e: Event) {
    match e
    case Begin(_) => s.pc == Idle
    case Appeared(_) => true
    case Saw(f, present) => s.pc == Asks(f) && present == (f in s.flags)
    case Renamed(ok) => s.pc == Rename && (ok ==> Done in s.flags)
    case Made(_) => s.pc == Create
    case Answered(m) => s.pc == Reply(m)
    case Started(_) => s.pc == Shutdown && !b.allowlist
    case Abandoned => s.pc == Shutdown && !b.allowlist
    case Refused => s.pc == Shutdown && b.allowlist
  }

  function Next(b: Build, s: Sys, e: Event): Sys {
    match e
    case Begin(c) => Sys(s.flags, if b.bareMetal then Reply(Bm) else AskAck, c)
    case Appeared(f) => s.(flags := s.flags + {f})
    case Saw(Ack, present) => s.(pc := if present then Reply(Bm) else AskDone)
    case Saw(Done, present) => s.(pc := if present then Rename else AskSignal)
    case Saw(Signal, present) => s.(pc := if present then AskCleaning else Reply(NonBm))
    case Saw(Cleaning, present) => s.(pc := if present then Reply(BmCleaning) else Create)
    case Renamed(ok) => s.(pc := Reply(Bm), flags := if ok then s.flags - {Done} + {Ack} else s.flags)
    case Made(ok) => s.(pc := Reply(BmCleaning), flags := if ok then s.flags + {Cleaning} else s.flags)
    case Answered(m) => s.(pc := if s.caller == BootDone && m == Bm then Shutdown else Idle)
    case Started(_) => s.(pc := Idle)
    case Abandoned => s.(pc := Idle)
    case Refused => s.(pc := Idle)
  }

  /** The state a sequence of events leads to. */
  function After(b: Build, s: Sys, es: seq<Event>): Sys {
    if es == [] then s else Next(b, After(b, s, es[..|es| - 1]), es[|es| - 1])
  }

  predicate Run(b: Build, s: Sys, es: seq<Event>) {
    es == [] ||
    (Run(b, s, es[..|es| - 1]) && Enabled(b, After(b, s, es[..|es| - 1]), es[|es| - 1]))
  }

  function Start(flags: set<Flag>): Sys { Sys(flags, Idle, GetMode) }

  lemma Extend(b: Build, s: Sys, es: seq<Event>, e: Event)
    ensures Run(b, s, es + [e]) <==> Run(b, s, es) && Enabled(b, After(b, s, es), e)
    ensures After(b, s, es + [e]) == Next(b, After(b, s, es), e)
  {
    assert (es + [e])[..|es|] == es;
  }

  lemma {:induction false} RunPrefix(b: Build, s: Sys, es: seq<Event>, k: nat)
    requires Run(b, s, es) && k <= |es|
    ensures Run(b, s, es[..k])
  {
    if k < |es| {
      RunPrefix(b, s, es[..|es| - 1], k);
      assert es[..|es| - 1][..k] == es[..k];
    } else {
      assert es[..k] == es;
    }
  }

  /** Every event of a run was enabled where it happened. */
  lemma EnabledAt(b: Build, s: Sys, es: seq<Event>, j: nat)
    requires Run(b, s, es) && j < |es|
    ensures Run(b, s, es[..j]) && Enabled(b, After(b, s, es[..j]), es[j])
  {
    RunPrefix(b, s, es, j + 1);
    assert es[..j + 1][..j] == es[..j];
  }

  lemma AfterNext(b: Build, s: Sys, es: seq<Event>, j: nat)
    requires j < |es|
    ensures After(b, s, es[..j + 1]) == Next(b, After(b, s, es[..j]), es[j])
  {
    assert es[..j + 1][..j] == es[..j];
  }

  /** The done flag appeared at k and has not been renamed since. */
  predicate StandsFrom(es: seq<Event>, k: nat) {
    k < |es| && es[k] == Appeared(Done) && Renamed(true) !in es[k + 1..]
  }

  /** The done flag was there or appeared, and has not been renamed since. */
  predicate DoneStands(flags: set<Flag>, es: seq<Event>) {
    (Done in flags && Renamed(true) !in es) || exists k :: 0 <= k < |es| && StandsFrom(es, k)
  }

  lemma StandsFromStep(es: seq<Event>, e: Event, k: nat)
    requires k < |es|
    ensures StandsFrom(es + [e], k) <==> e != Renamed(true) && StandsFrom(es, k)
  {
    assert (es + [e])[k + 1..] == es[k + 1..] + [e];
  }

  lemma DoneStandsStep(flags: set<Flag>, es: seq<Event>, e: Event)
    ensures DoneStands(flags, es + [e]) <==> e == Appeared(Done) || (e != Renamed(true) && DoneStands(flags, es))
  {
    if e == Appeared(Done) {
      assert StandsFrom(es + [e], |es|);
    }
    forall k | 0 <= k < |es| ensures StandsFrom(es + [e], k) <==> e != Renamed(true) && StandsFrom(es, k) {
      StandsFromStep(es, e, k);
    }
  }

  /** The files of a state are told from what happened: what appeared, was renamed and was created, and nothing else. */
  lemma {:induction false} FilesAreTheHistory(b: Build, flags: set<Flag>, es: seq<Event>)
    ensures var now := After(b, Start(flags), es).flags;
            && (Signal in now <==> Signal in flags || Appeared(Signal) in es)
            && (Cleaning in now <==> Cleaning in flags || Appeared(Cleaning) in es || Made(true) in es)
            && (Ack in now <==> Ack in flags || Appeared(Ack) in es || Renamed(true) in es)
            && (Done in now <==> DoneStands(flags, es))
  {
    if es != [] {
      var before, e := es[..|es| - 1], es[|es| - 1];
      assert es == before + [e];
      FilesAreTheHistory(b, flags, before);
      DoneStandsStep(flags, before, e);
    }
  }

  // ---------------------------------------------------------------------
  // An answer is the mode at some instant of the query
  // ---------------------------------------------------------------------

  /** What the flag files say, read all at once. */
  function ModeOf(flags: set<Flag>): Mode {
    if Ack in flags || Done in flags then Bm
    else if Signal in flags then BmCleaning
    else NonBm
  }

  /** The last call begins at index start. */
  predicate LastCall(es: seq<Event>, start: nat) {
    && start < |es|
    && es[start].Begin?
    && forall k :: start < k < |es| ==> !es[k].Begin?
  }

  lemma CallGoesOn(es: seq<Event>, start: nat)
    requires LastCall(es, start) && start < |es| - 1
    ensures LastCall(es[..|es| - 1], start) && !es[|es| - 1].Begin?
  {
  }

  /** Since start, done and ack were only created by others once the signal flag existed. */
  ghost predicate Disciplined(b: Build, s: Sys, es: seq<Event>, start: nat) {
    forall k :: start <= k < |es| && (es[k] == Appeared(Done) || es[k] == Appeared(Ack)) ==>
      Signal in After(b, s, es[..k]).flags
  }

  /** Mode m held at some instant after the event at start. */
  ghost predicate Held(b: Build, s: Sys, es: seq<Event>, start: nat, m: Mode) {
    exists k :: start < k <= |es| && ModeOf(After(b, s, es[..k]).flags) == m
  }

  lemma HeldNow(b: Build, s: Sys, es: seq<Event>, start: nat)
    requires start < |es|
    ensures Held(b, s, es, start, ModeOf(After(b, s, es).flags))
  {
    assert es[..|es|] == es;
  }

  lemma HeldLater(b: Build, s: Sys, es: seq<Event>, e: Event, start: nat, m: Mode)
    requires Held(b, s, es, start, m)
    ensures Held(b, s, es + [e], start, m)
  {
    var k :| start < k <= |es| && ModeOf(After(b, s, es[..k]).flags) == m;
    assert (es + [e])[..k] == es[..k];
  }

  /**
   What a query has established by the time it reaches each of its operations,
   with (d) or without the discipline.
   */
  ghost predicate Witnessed(b: Build, s: Sys, es: seq<Event>, start: nat, d: bool) {
    var now := After(b, s, es);
    var signalled := if Signal in now.flags then BmCleaning else NonBm;
    match now.pc
    case Idle => true
    case Shutdown => true
    case AskAck => true
    case AskDone =>
      && (d && Signal !in now.flags ==> Ack !in now.flags)
      && (Done !in now.flags && (d || signalled == NonBm) ==> Held(b, s, es, start, signalled))
    case Rename => Held(b, s, es, start, Bm)
    case AskSignal =>
      && (d && Signal !in now.flags ==> ModeOf(now.flags) == NonBm)
      && (d || signalled == NonBm ==> Held(b, s, es, start, signalled))
    case AskCleaning => d ==> Held(b, s, es, start, BmCleaning)
    case Create => d ==> Held(b, s, es, start, BmCleaning)
    case Reply(m) => d || m != BmCleaning ==> Held(b, s, es, start, m)
  }

  lemma WitnessedStep(b: Build, s: Sys, es: seq<Event>, e: Event, start: nat, d: bool)
    requires !b.bareMetal && start < |es| && !e.Begin?
    requires Enabled(b, After(b, s, es), e) && Witnessed(b, s, es, start, d)
    requires d && (e == Appeared(Done) || e == Appeared(Ack)) ==> Signal in After(b, s, es).flags
    ensures Witnessed(b, s, es + [e], start, d)
  {
    Extend(b, s, es, e);
    HeldNow(b, s, es, start);
    HeldNow(b, s, es + [e], start);
    forall m | Held(b, s, es, start, m) ensures Held(b, s, es + [e], start, m) {
      HeldLater(b, s, es, e, start, m);
    }
  }

  lemma DisciplinedPrefix(b: Build, s: Sys, es: seq<Event>, start: nat, n: nat)
    requires n <= |es| && Disciplined(b, s, es, start)
    ensures Disciplined(b, s, es[..n], start)
  {
    forall k | start <= k < n && (es[k] == Appeared(Done) || es[k] == Appeared(Ack))
      ensures Signal in After(b, s, es[..n][..k]).flags
    {
      assert es[..n][..k] == es[..k];
    }
  }

  lemma {:induction false} AlwaysWitnessed(b: Build, s: Sys, es: seq<Event>, start: nat, d: bool)
    requires !b.bareMetal && Run(b, s, es) && LastCall(es, start)
    requires d ==> Disciplined(b, s, es, start)
    ensures Witnessed(b, s, es, start, d)
    decreases |es|
  {
    var before, e := es[..|es| - 1], es[|es| - 1];
    assert es == before + [e];
    if start < |before| {
      CallGoesOn(es, start);
      if d {
        DisciplinedPrefix(b, s, es, start, |before|);
        assert es[|before|] == e && es[..|before|] == before;
      }
      AlwaysWitnessed(b, s, before, start, d);
      WitnessedStep(b, s, before, e, start, d);
    }
  }

  /**
   The query is linearizable: whatever others create while it runs, its answer
   is the mode the flag files spelled out at some instant between its beginning
   and its answer. Only a cleaning answer needs the discipline for this.
   */
  lemma AnswersAreLinearizable(b: Build, s: Sys, es: seq<Event>, start: nat)
    requires !b.bareMetal && Run(b, s, es) && LastCall(es, start) && es[|es| - 1].Answered?
    requires es[|es| - 1].mode == BmCleaning ==> Disciplined(b, s, es, start)
    ensures Held(b, s, es[..|es| - 1], start, es[|es| - 1].mode)
  {
    var before := es[..|es| - 1];
    var d := es[|es| - 1].mode == BmCleaning;
    if d {
      DisciplinedPrefix(b, s, es, start, |before|);
    }
    AlwaysWitnessed(b, s, before, start, d);
  }

  /** The file states of a call, in order. */
  ghost predicate FlagsGrew(b: Build, s: Sys, es: seq<Event>, start: nat) {
    forall i, j :: start <= i <= j <= |es| ==> After(b, s, es[..i]).flags <= After(b, s, es[..j]).flags
  }

  /** A query that has not met the done or ack flag. */
  predicate Unmet(pc: Pc) {
    !pc.Rename? && pc != Reply(Bm) && !pc.Shutdown? && !pc.Idle?
  }

  lemma GrewStep(b: Build, s: Sys, es: seq<Event>, e: Event, start: nat)
    requires FlagsGrew(b, s, es, start) && start <= |es|
    requires After(b, s, es).flags <= After(b, s, es + [e]).flags
    ensures FlagsGrew(b, s, es + [e], start)
  {
    var es' := es + [e];
    assert es'[..|es'|] == es' && es[..|es|] == es;
    assert forall i :: 0 <= i <= |es| ==> es'[..i] == es[..i];
    forall i, j | start <= i <= j <= |es'|
      ensures After(b, s, es'[..i]).flags <= After(b, s, es'[..j]).flags
    {
      assert i <= |es| ==> After(b, s, es[..i]).flags <= After(b, s, es[..|es|]).flags;
    }
  }

  /** Until it meets one of them a query sees files appear only. */
  lemma {:induction false} UnmetCallGrows(b: Build, s: Sys, es: seq<Event>, start: nat)
    requires Run(b, s, es) && LastCall(es, start) && Unmet(After(b, s, es).pc)
    ensures FlagsGrew(b, s, es, start)
    decreases |es|
  {
    var before, e := es[..|es| - 1], es[|es| - 1];
    assert es == before + [e];
    Extend(b, s, before, e);
    if start < |before| {
      CallGoesOn(es, start);
      UnmetCallGrows(b, s, before, start);
    }
    GrewStep(b, s, before, e, start);
  }

  /** What a query that began with some files has ruled out by the time it reaches each of its operations. */
  predicate RuledOut(began: set<Flag>, now: Sys) {
    && began <= now.flags
    && (!now.pc.AskAck? ==> Ack !in began)
    && (!now.pc.AskAck? && !now.pc.AskDone? ==> Done !in began)
    && (now.pc.AskCleaning? || now.pc.Create? || now.pc == Reply(BmCleaning) ==> Signal in now.flags)
  }

  lemma RuledOutStep(b: Build, began: set<Flag>, now: Sys, e: Event)
    requires RuledOut(began, now) && Enabled(b, now, e) && !e.Begin?
    requires Unmet(now.pc) && Unmet(Next(b, now, e).pc)
    ensures RuledOut(began, Next(b, now, e))
  {
  }

  lemma {:induction false} UnmetCallRulesOut(b: Build, s: Sys, es: seq<Event>, start: nat, began: set<Flag>)
    requires Run(b, s, es) && LastCall(es, start) && Unmet(After(b, s, es).pc)
    requires began == After(b, s, es[..start + 1]).flags
    ensures RuledOut(began, After(b, s, es))
    decreases |es|
  {
    var before, e := es[..|es| - 1], es[|es| - 1];
    if start < |before| {
      CallGoesOn(es, start);
      assert before[..start + 1] == es[..start + 1];
      UnmetCallRulesOut(b, s, before, start, began);
      RuledOutStep(b, began, After(b, s, before), e);
    } else {
      assert es[..start + 1] == es;
    }
  }

  /** When the signal flag first appeared in the call, neither done nor ack was there. */
  ghost predicate SignalFirst(b: Build, s: Sys, es: seq<Event>, start: nat) {
    forall k :: start <= k < |es| && es[k] == Appeared(Signal) && Signal !in After(b, s, es[..k]).flags ==>
      ModeOf(After(b, s, es[..k]).flags) == NonBm
  }

  /**
   A cleaning answer is the mode of some instant of its query exactly when the
   signal flag, if it was created during the query, was created before done and ack.
   */
  lemma CleaningAnswersExactly(b: Build, s: Sys, es: seq<Event>, start: nat)
    requires !b.bareMetal && Run(b, s, es) && LastCall(es, start) && es[|es| - 1] == Answered(BmCleaning)
    ensures Held(b, s, es[..|es| - 1], start, BmCleaning) <==> SignalFirst(b, s, es[..|es| - 1], start)
  {
    var call := es[..|es| - 1];
    UnmetCallGrows(b, s, call, start);
    UnmetCallRulesOut(b, s, call, start, After(b, s, call[..start + 1]).flags);
    if Held(b, s, call, start, BmCleaning) {
      var i :| start < i <= |call| && ModeOf(After(b, s, call[..i]).flags) == BmCleaning;
      forall k | start <= k < |call| && Signal !in After(b, s, call[..k]).flags
        ensures ModeOf(After(b, s, call[..k]).flags) == NonBm
      {
        var first, second := if i <= k then i else k, if i <= k then k else i;
        assert After(b, s, call[..first]).flags <= After(b, s, call[..second]).flags;
      }
    }
    if SignalFirst(b, s, call, start) {
      assert call[..|call|] == call;
      SignalArrived(b, s, call, start, |call|);
    }
  }

  /** Only other processes create the signal flag. */
  lemma SignalAppears(b: Build, s: Sys, es: seq<Event>, k: nat)
    requires k < |es| && Signal !in After(b, s, es[..k]).flags && Signal in After(b, s, es[..k + 1]).flags
    ensures es[k] == Appeared(Signal)
    ensures After(b, s, es[..k + 1]).flags == After(b, s, es[..k]).flags + {Signal}
  {
    assert es[..k + 1] == es[..k] + [es[k]];
    Extend(b, s, es[..k], es[k]);
  }

  /** Once the signal flag is there it came with the call, or appeared in it; either way the mode was cleaning. */
  lemma {:induction false} SignalArrived(b: Build, s: Sys, es: seq<Event>, start: nat, n: nat)
    requires FlagsGrew(b, s, es, start) && SignalFirst(b, s, es, start) && start < n <= |es|
    requires Ack !in After(b, s, es[..start + 1]).flags && Done !in After(b, s, es[..start + 1]).flags
    requires Signal in After(b, s, es[..n]).flags
    ensures Held(b, s, es, start, BmCleaning)
    decreases n
  {
    if n == start + 1 {
      assert ModeOf(After(b, s, es[..n]).flags) == BmCleaning;
    } else if Signal in After(b, s, es[..n - 1]).flags {
      SignalArrived(b, s, es, start, n - 1);
    } else {
      SignalAppears(b, s, es, n - 1);
      assert ModeOf(After(b, s, es[..n]).flags) == BmCleaning;
    }
  }

  /** A query that sees the done flag appear before the signal flag. */
  const EARLY_DONE: seq<Event> := [
    Begin(GetMode), Saw(Ack, false), Saw(Done, false), Appeared(Done), Appeared(Signal),
    Saw(Signal, true), Saw(Cleaning, false), Made(true), Answered(BmCleaning)]

  function FlagsAlong(k: nat): set<Flag> {
    if k <= 3 then {} else if k == 4 then {Done} else if k <= 7 then {Done, Signal} else {Done, Signal, Cleaning}
  }

  function PcAlong(k: nat): Pc {
    match k
    case 0 => Idle case 1 => AskAck case 2 => AskDone case 3 => AskSignal case 4 => AskSignal
    case 5 => AskSignal case 6 => AskCleaning case 7 => Create case 8 => Reply(BmCleaning) case _ => Idle
  }

  lemma {:induction false} EarlyDoneUnfolds(b: Build, k: nat)
    requires !b.bareMetal && k <= |EARLY_DONE|
    ensures Run(b, Start({}), EARLY_DONE[..k])
    ensures After(b, Start({}), EARLY_DONE[..k]) == Sys(FlagsAlong(k), PcAlong(k), GetMode)
  {
    if k > 0 {
      EarlyDoneUnfolds(b, k - 1);
      Extend(b, Start({}), EARLY_DONE[..k - 1], EARLY_DONE[k - 1]);
      assert EARLY_DONE[..k] == EARLY_DONE[..k - 1] + [EARLY_DONE[k - 1]];
    }
  }

  /** Without the discipline a query can give an answer that was right at no instant. */
  lemma EarlyDoneIsNotLinearizable(b: Build)
    requires !b.bareMetal
    ensures Run(b, Start({}), EARLY_DONE) && LastCall(EARLY_DONE, 0)
    ensures EARLY_DONE[|EARLY_DONE| - 1] == Answered(BmCleaning)
    ensures !Held(b, Start({}), EARLY_DONE, 0, BmCleaning)
  {
    EarlyDoneUnfolds(b, |EARLY_DONE|);
    assert EARLY_DONE[..|EARLY_DONE|] == EARLY_DONE;
    forall k | 0 < k <= |EARLY_DONE|
      ensures ModeOf(After(b, Start({}), EARLY_DONE[..k]).flags) != BmCleaning
    {
      EarlyDoneUnfolds(b, k);
    }
  }

  // ---------------------------------------------------------------------
  // Reported modes never go backwards
  // ---------------------------------------------------------------------

  function Rank(m: Mode): nat {
    match m case NonBm => 0 case BmCleaning => 1 case Bm => 2
  }

  /** What having answered m leaves true for good: of the files, and of a query under way. */
  predicate Settled(b: Build, s: Sys, m: Mode) {
    match m
    case NonBm => true
    case BmCleaning => Signal in s.flags && s.pc != Reply(NonBm)
    case Bm =>
      && (b.bareMetal || Ack in s.flags || Done in s.flags)
      && (s.pc == AskDone ==> Done in s.flags)
      && !s.pc.AskSignal? && !s.pc.AskCleaning? && !s.pc.Create?
      && (s.pc.Reply? ==> s.pc.mode == Bm)
  }

  /** What a query knows before it answers, enough to settle its answer. */
  predicate Grounded(b: Build, s: Sys) {
    match s.pc
    case AskCleaning => Signal in s.flags
    case Create => Signal in s.flags
    case Rename => Done in s.flags
    case Reply(m) =>
      (m == BmCleaning ==> Signal in s.flags)
      && (m == Bm ==> b.bareMetal || Ack in s.flags || Done in s.flags)
    case _ => b.bareMetal ==> s.pc == Idle || s.pc == Shutdown
  }

  lemma {:induction false} AlwaysGrounded(b: Build, flags: set<Flag>, es: seq<Event>)
    requires Run(b, Start(flags), es)
    ensures Grounded(b, After(b, Start(flags), es))
  {
    if es != [] {
      AlwaysGrounded(b, flags, es[..|es| - 1]);
    }
  }

  lemma {:induction false} AnswersSettle(b: Build, flags: set<Flag>, es: seq<Event>, i: nat)
    requires Run(b, Start(flags), es) && i < |es| && es[i].Answered?
    ensures Settled(b, After(b, Start(flags), es), es[i].mode)
    decreases |es|
  {
    var before := es[..|es| - 1];
    AlwaysGrounded(b, flags, before);
    if i < |before| {
      AnswersSettle(b, flags, before, i);
    }
  }

  /**
   In any run of queries and boot-done calls, with renames that fail or succeed
   and flags appearing in any order, no answer ranks below an earlier one.
   */
  lemma ModesNeverGoBack(b: Build, flags: set<Flag>, es: seq<Event>, i: nat, j: nat)
    requires Run(b, Start(flags), es) && i < j < |es|
    requires es[i].Answered? && es[j].Answered?
    ensures Rank(es[i].mode) <= Rank(es[j].mode)
  {
    EnabledAt(b, Start(flags), es, j);
    AnswersSettle(b, flags, es[..j], i);
    AlwaysGrounded(b, flags, es[..j]);
  }

  // ---------------------------------------------------------------------
  // The cleaning flag
  // ---------------------------------------------------------------------

  /** Others leave the cleaning flag alone and creating it works. */
  predicate OnlyWeClean(es: seq<Event>) {
    Appeared(Cleaning) !in es && Made(false) !in es
  }

  function CountMade(es: seq<Event>): nat {
    if es == [] then 0 else CountMade(es[..|es| - 1]) + if es[|es| - 1].Made? then 1 else 0
  }

  /** The cleaning flag in every state, between calls or inside one. */
  lemma {:induction false} CleaningFlagInside(b: Build, flags: set<Flag>, es: seq<Event>)
    requires Run(b, Start(flags), es) && OnlyWeClean(es) && Cleaning !in flags
    ensures var now := After(b, Start(flags), es);
            && (Cleaning in now.flags <==> Answered(BmCleaning) in es || now.pc == Reply(BmCleaning))
            && (now.pc == Create ==> Cleaning !in now.flags)
            && CountMade(es) == if Cleaning in now.flags then 1 else 0
  {
    if es != [] {
      var before := es[..|es| - 1];
      assert es == before + [es[|es| - 1]];
      CleaningFlagInside(b, flags, before);
    }
  }

  /**
   Between calls the cleaning flag exists exactly when some query has answered
   cleaning, and over the whole run it is created at most once.
   */
  lemma CleaningFlagRecordsAnswers(b: Build, flags: set<Flag>, es: seq<Event>)
    requires Run(b, Start(flags), es) && OnlyWeClean(es) && Cleaning !in flags
    ensures !After(b, Start(flags), es).pc.Reply? ==>
            (Cleaning in After(b, Start(flags), es).flags <==> Answered(BmCleaning) in es)
    ensures CountMade(es) <= 1
  {
    CleaningFlagInside(b, flags, es);
  }

  /** Nothing appears and every file operation succeeds from start on. */
  predicate Undisturbed(es: seq<Event>, start: nat) {
    forall k :: start <= k < |es| ==> !es[k].Appeared? && es[k] != Renamed(false) && es[k] != Made(false)
  }

  /** Progress of an undisturbed call that began with the files at flags. */
  predicate Steady(b: Build, flags: set<Flag>, now: Sys) {
    var target := if b.bareMetal then flags
                  else if Ack in flags then flags
                  else if Done in flags then flags - {Done} + {Ack}
                  else if Signal in flags then flags + {Cleaning}
                  else flags;
    match now.pc
    case Reply(m) => now.flags == target && m == if b.bareMetal then Bm else ModeOf(flags)
    case Idle => now.flags == target
    case Shutdown => now.flags == target && (b.bareMetal || ModeOf(flags) == Bm)
    case _ =>
      && now.flags == flags && !b.bareMetal
      && (!now.pc.AskAck? ==> Ack !in flags)
      && (now.pc.Rename? ==> Done in flags)
      && (now.pc.AskSignal? || now.pc.AskCleaning? || now.pc.Create? ==> Done !in flags)
      && (now.pc.AskCleaning? || now.pc.Create? ==> Signal in flags)
      && (now.pc.Create? ==> Cleaning !in flags)
  }

  lemma {:induction false} UndisturbedIsSteady(b: Build, s: Sys, es: seq<Event>, start: nat)
    requires Run(b, s, es) && LastCall(es, start) && Undisturbed(es, start)
    ensures Steady(b, After(b, s, es[..start]).flags, After(b, s, es))
    decreases |es|
  {
    var before := es[..|es| - 1];
    if start < |before| {
      CallGoesOn(es, start);
      assert before[..start] == es[..start];
      UndisturbedIsSteady(b, s, before, start);
    } else {
      assert es[..start] == before;
    }
  }

  lemma UndisturbedAnswer(b: Build, s: Sys, es: seq<Event>, start: nat, j: nat)
    requires Run(b, s, es) && LastCall(es, start) && Undisturbed(es, start)
    requires start < j < |es| && es[j].Answered?
    ensures es[j].mode == if b.bareMetal then Bm else ModeOf(After(b, s, es[..start]).flags)
  {
    EnabledAt(b, s, es, j);
    assert es[..j][..start] == es[..start];
    UndisturbedIsSteady(b, s, es[..j], start);
  }

  /** The octet an undisturbed query reports, by the files it started with. */
  lemma UndisturbedOctet(b: Build, s: Sys, es: seq<Event>, start: nat, j: nat)
    requires Run(b, s, es) && LastCall(es, start) && Undisturbed(es, start)
    requires start < j < |es| && es[j].Answered?
    ensures var flags := After(b, s, es[..start]).flags;
            ModeByte(es[j].mode) ==
            if b.bareMetal || Ack in flags || Done in flags then 1 else if Signal in flags then 2 else 0
  {
    UndisturbedAnswer(b, s, es, start, j);
  }

  /** The files an undisturbed call leaves behind, one by one. */
  lemma UndisturbedFiles(b: Build, s: Sys, es: seq<Event>, start: nat)
    requires Run(b, s, es) && LastCall(es, start) && Undisturbed(es, start) && After(b, s, es).pc == Idle
    ensures var (flags, now) := (After(b, s, es[..start]).flags, After(b, s, es).flags);
            && (Signal in now <==> Signal in flags)
            && (Ack in now <==> Ack in flags || (!b.bareMetal && Done in flags))
            && (Done in now <==> Done in flags && (b.bareMetal || Ack in flags))
            && (Cleaning in now <==>
                  Cleaning in flags || (!b.bareMetal && Signal in flags && Ack !in flags && Done !in flags))
  {
    UndisturbedIsSteady(b, s, es, start);
  }

  /** The files before and after one undisturbed call, and its answer. */
  ghost predicate UndisturbedCall(b: Build, s: Sys, es: seq<Event>, start: nat, answer: nat) {
    && Run(b, s, es) && LastCall(es, start) && Undisturbed(es, start)
    && start < answer < |es| && es[answer].Answered?
    && After(b, s, es).pc == Idle
  }

  /** Asked again at once, the query gives the same answer and changes no file. */
  lemma RepeatedQueryIsStable(b: Build, s: Sys, es: seq<Event>, start: nat, answer: nat,
                              es': seq<Event>, start': nat, answer': nat)
    requires UndisturbedCall(b, s, es, start, answer)
    requires UndisturbedCall(b, s, es', start', answer')
    requires es <= es' && start' == |es|
    ensures es'[answer'].mode == es[answer].mode
    ensures After(b, s, es').flags == After(b, s, es).flags
  {
    assert es'[..start'] == es;
    UndisturbedAnswer(b, s, es, start, answer);
    UndisturbedAnswer(b, s, es', start', answer');
    UndisturbedIsSteady(b, s, es, start);
    UndisturbedIsSteady(b, s, es', start');
    assert Ack in After(b, s, es).flags ==> After(b, s, es').flags == After(b, s, es).flags;
  }

  // ---------------------------------------------------------------------
  // Shutting IPMI down
  // ---------------------------------------------------------------------

  /** Somewhere in the call that began at start, ack or done was seen. */
  predicate SawEvidence(es: seq<Event>, start: nat) {
    exists k :: start < k < |es| && (es[k] == Saw(Ack, true) || es[k] == Saw(Done, true))
  }

  predicate AnsweredOnly(es: seq<Event>, start: nat, m: Mode) {
    forall k :: start < k < |es| && es[k].Answered? ==> es[k].mode == m
  }

  /** What a call that may lead to a shutdown has behind it. */
  ghost predicate Justified(b: Build, s: Sys, es: seq<Event>, start: nat)
    requires start < |es|
  {
    var now := After(b, s, es);
    && es[start] == Begin(now.caller)
    && (now.pc == Rename || now.pc == Reply(Bm) || now.pc == Shutdown ==> b.bareMetal || SawEvidence(es, start))
    && (now.pc == Shutdown ==> now.caller == BootDone)
    && (now.pc == Shutdown ==> Answered(Bm) in es[start..] && AnsweredOnly(es, start, Bm))
    && (now.pc != Shutdown && now.pc != Idle ==> forall k :: start < k < |es| ==> !es[k].Answered?)
  }

  lemma JustifiedStep(b: Build, s: Sys, es: seq<Event>, e: Event, start: nat)
    requires start < |es| && !e.Begin? && Enabled(b, After(b, s, es), e) && Justified(b, s, es, start)
    ensures Justified(b, s, es + [e], start)
  {
    Extend(b, s, es, e);
    assert forall k :: start <= k < |es| ==> (es + [e])[k] == es[k];
    assert (es + [e])[start..] == es[start..] + [e];
    if SawEvidence(es, start) {
      var k :| start < k < |es| && (es[k] == Saw(Ack, true) || es[k] == Saw(Done, true));
      assert (es + [e])[k] == es[k];
    }
    if e == Saw(Ack, true) || e == Saw(Done, true) {
      assert (es + [e])[|es|] == e;
    }
  }

  lemma {:induction false} AlwaysJustified(b: Build, s: Sys, es: seq<Event>, start: nat)
    requires Run(b, s, es) && LastCall(es, start)
    ensures Justified(b, s, es, start)
    decreases |es|
  {
    var before, e := es[..|es| - 1], es[|es| - 1];
    assert es == before + [e];
    if start < |before| {
      CallGoesOn(es, start);
      AlwaysJustified(b, s, before, start);
      JustifiedStep(b, s, before, e, start);
    }
  }

  /**
   The bare-metal target is only ever asked for by a boot-done call, in a build
   without the allowlist, after that very call answered bare metal and nothing
   else, having seen the ack or the done flag (or being built bare metal).
   */
  lemma ShutdownIsJustified(b: Build, s: Sys, es: seq<Event>, start: nat)
    requires Run(b, s, es) && LastCall(es, start) && es[|es| - 1].Started?
    ensures !b.allowlist
    ensures es[start] == Begin(BootDone)
    ensures Answered(Bm) in es[start..] && AnsweredOnly(es, start, Bm)
    ensures b.bareMetal || SawEvidence(es, start)
  {
    var before := es[..|es| - 1];
    AlwaysJustified(b, s, before, start);
    assert es[start..] == before[start..] + [es[|es| - 1]];
    if !b.bareMetal {
      var k :| start < k < |before| && (before[k] == Saw(Ack, true) || before[k] == Saw(Done, true));
      assert es[k] == before[k];
    }
  }

  /** What a boot-done call can do last, once its query has answered bare metal. */
  predicate Concludes(e: Event) { e.Started? || e.Abandoned? || e.Refused? }

  predicate EndsNowhere(es: seq<Event>, start: nat) {
    forall k :: start < k < |es| ==> !Concludes(es[k])
  }

  /** The call ends at k, and nowhere else. */
  predicate EndsAt(b: Build, es: seq<Event>, start: nat, k: nat) {
    && start < k < |es| && Concludes(es[k]) && (es[k].Refused? <==> b.allowlist)
    && forall j :: start < j < |es| && Concludes(es[j]) ==> j == k
  }

  lemma {:induction false} NoEndBeforeAnAnswer(b: Build, s: Sys, es: seq<Event>, start: nat)
    requires Run(b, s, es) && LastCall(es, start) && Answered(Bm) !in es[start..]
    ensures EndsNowhere(es, start) && After(b, s, es).pc != Shutdown
    decreases |es|
  {
    var before, e := es[..|es| - 1], es[|es| - 1];
    assert es == before + [e];
    if start < |before| {
      assert es[start..] == before[start..] + [e];
      CallGoesOn(es, start);
      NoEndBeforeAnAnswer(b, s, before, start);
    }
  }

  lemma EndStays(b: Build, es: seq<Event>, e: Event, start: nat, k: nat)
    requires EndsAt(b, es, start, k) && !Concludes(e)
    ensures EndsAt(b, es + [e], start, k)
  {
    assert forall j :: 0 <= j < |es| ==> (es + [e])[j] == es[j];
  }

  lemma EndComes(b: Build, es: seq<Event>, e: Event, start: nat)
    requires EndsNowhere(es, start) && start < |es| && Concludes(e) && (e.Refused? <==> b.allowlist)
    ensures EndsAt(b, es + [e], start, |es|)
  {
    assert forall j :: 0 <= j < |es| ==> (es + [e])[j] == es[j];
  }

  /** A boot-done call past a bare-metal answer is yet to end, or has ended once. */
  ghost predicate BootEnding(b: Build, s: Sys, es: seq<Event>, start: nat) {
    var now := After(b, s, es);
    now.caller == BootDone &&
    if now.pc == Shutdown then EndsNowhere(es, start) else now.pc == Idle && exists k :: EndsAt(b, es, start, k)
  }

  lemma BootEndingStep(b: Build, s: Sys, es: seq<Event>, e: Event, start: nat)
    requires BootEnding(b, s, es, start) && start < |es| && !e.Begin? && Enabled(b, After(b, s, es), e)
    ensures BootEnding(b, s, es + [e], start)
  {
    Extend(b, s, es, e);
    if After(b, s, es).pc == Idle {
      var k :| EndsAt(b, es, start, k);
      EndStays(b, es, e, start, k);
    } else if Concludes(e) {
      EndComes(b, es, e, start);
    } else {
      assert forall j :: 0 <= j < |es| ==> (es + [e])[j] == es[j];
    }
  }

  lemma BootEndingBegins(b: Build, s: Sys, es: seq<Event>, start: nat)
    requires EndsNowhere(es, start) && start < |es|
    requires After(b, s, es).caller == BootDone && After(b, s, es).pc == Reply(Bm)
    ensures BootEnding(b, s, es + [Answered(Bm)], start)
  {
    Extend(b, s, es, Answered(Bm));
    assert forall j :: 0 <= j < |es| ==> (es + [Answered(Bm)])[j] == es[j];
  }

  /** Nothing concludes a call that answered something else. */
  lemma NothingConcludesIdle(b: Build, s: Sys, es: seq<Event>, k: nat)
    requires Run(b, s, es) && k + 1 < |es| && es[k].Answered? && es[k].mode != Bm
    ensures !Concludes(es[k + 1])
  {
    EnabledAt(b, s, es, k + 1);
    AfterNext(b, s, es, k);
  }

  /**
   A boot-done call that answered bare metal ends, exactly once, in one of three
   ways: an allowlist build refuses; any other build asks for the target, or
   fails to build the call that would.
   */
  lemma {:induction false} BareMetalBootEnds(b: Build, s: Sys, es: seq<Event>, start: nat)
    requires Run(b, s, es) && LastCall(es, start)
    requires es[start] == Begin(BootDone) && Answered(Bm) in es[start..]
    ensures BootEnding(b, s, es, start)
    decreases |es|
  {
    var before, e := es[..|es| - 1], es[|es| - 1];
    assert es == before + [e];
    if start < |before| {
      assert es[start..] == before[start..] + [e];
      CallGoesOn(es, start);
      if Answered(Bm) in before[start..] {
        BareMetalBootEnds(b, s, before, start);
        BootEndingStep(b, s, before, e, start);
      } else {
        AlwaysJustified(b, s, before, start);
        NoEndBeforeAnAnswer(b, s, before, start);
        BootEndingBegins(b, s, before, start);
      }
    }
  }

  // ---------------------------------------------------------------------
  // The program
  // ---------------------------------------------------------------------

  /** Only flag files appearing. */
  predicate Background(es: seq<Event>) {
    forall k :: 0 <= k < |es| ==> es[k].Appeared?
  }

  /** One operation of the query, after whatever else happened first. */
  ghost predicate Operated(before: seq<Event>, after: seq<Event>, e: Event) {
    exists meanwhile :: Background(meanwhile) && after == before + meanwhile + [e]
  }

  /** Whether the file system lets a query rename and create. */
  datatype Luck = Luck(renames: bool, creates: bool)

  /** Inside a call none begins or answers one, and operations work as the file system lets them. */
  predicate Allowed(e: Event, luck: Luck) {
    && !e.Begin? && !e.Answered?
    && (e.Renamed? ==> e.ok == luck.renames)
    && (e.Made? ==> e.ok == luck.creates)
  }

  predicate Inner(es: seq<Event>, luck: Luck) {
    forall k :: 0 <= k < |es| ==> Allowed(es[k], luck)
  }

  /** The flag directory, shared with other processes, and everything that happened to it. */
  class FlagFiles {
    var flags: set<Flag>
    ghost var log: seq<Event>
    ghost const initial: set<Flag>
    const build: Build

    ghost function Now(): Sys
      reads this
    {
      After(build, Start(initial), log)
    }

    ghost predicate Valid()
      reads this
    {
      Run(build, Start(initial), log) && Now().flags == flags
    }

    constructor (build: Build, flags: set<Flag>)
      ensures Valid() && Now().pc == Idle && log == []
      ensures this.build == build && this.flags == flags
    {
      this.build := build;
      this.flags := flags;
      this.initial := flags;
      this.log := [];
    }

    /** Another process creates a flag file. */
    method Appear(flag: Flag)
      requires Valid()
      modifies this
      ensures Valid() && log == old(log) + [Appeared(flag)]
      ensures Now().pc == old(Now().pc) && Now().caller == old(Now().caller)
    {
      Note(Appeared(flag));
      flags := flags + {flag};
    }

    /** Other processes create any flag files, in any order. */
    method Interfere() returns (ghost meanwhile: seq<Event>)
      requires Valid()
      modifies this
      ensures Valid() && Background(meanwhile) && log == old(log) + meanwhile
      ensures Now().pc == old(Now().pc) && Now().caller == old(Now().caller)
    {
      meanwhile := [];
      var more: nat :| true;
      while more > 0
        invariant Valid() && Background(meanwhile) && log == old(log) + meanwhile
        invariant Now().pc == old(Now().pc) && Now().caller == old(Now().caller)
      {
        var flag: Flag :| true;
        Appear(flag);
        meanwhile := meanwhile + [Appeared(flag)];
        more := more - 1;
      }
    }

    ghost method Note(e: Event)
      requires Run(build, Start(initial), log) && Enabled(build, Now(), e)
      modifies this`log
      ensures Run(build, Start(initial), log)
      ensures log == old(log) + [e] && Now() == Next(build, old(Now()), e)
    {
      Extend(build, Start(initial), log, e);
      log := log + [e];
    }

    method Exists(flag: Flag) returns (present: bool)
      requires Valid() && Now().pc == Asks(flag)
      modifies this
      ensures Valid() && Operated(old(log), log, Saw(flag, present))
      ensures present == (flag in flags)
      ensures Now() == Next(build, Sys(flags, Asks(flag), old(Now().caller)), Saw(flag, present))
    {
      ghost var meanwhile := Interfere();
      present := flag in flags;
      Note(Saw(flag, present));
    }

    /** The rename of the done flag to the ack flag; the program does not look at how it goes. */
    method RenameDone(works: bool)
      requires Valid() && Now().pc == Rename
      modifies this
      ensures Valid() && Operated(old(log), log, Renamed(works))
      ensures Now().pc == Reply(Bm) && Now().caller == old(Now().caller)
    {
      ghost var meanwhile := Interfere();
      AlwaysGrounded(build, initial, log);
      Note(Renamed(works));
      if works {
        flags := flags - {Done} + {Ack};
      }
    }

    /** The creation of the cleaning flag, likewise. */
    method CreateCleaning(works: bool)
      requires Valid() && Now().pc == Create
      modifies this
      ensures Valid() && Operated(old(log), log, Made(works))
      ensures Now().pc == Reply(BmCleaning) && Now().caller == old(Now().caller)
    {
      ghost var meanwhile := Interfere();
      Note(Made(works));
      if works {
        flags := flags + {Cleaning};
      }
    }
  }

  /** A finished query: it began, did its operations, and answered. */
  ghost predicate Queried(before: seq<Event>, after: seq<Event>, caller: Caller, luck: Luck, mode: Mode) {
    exists inner :: Inner(inner, luck) && after == before + [Begin(caller)] + inner + [Answered(mode)]
  }

  /** A query under way. */
  ghost predicate Querying(before: seq<Event>, now: seq<Event>, caller: Caller, luck: Luck) {
    exists inner :: Inner(inner, luck) && now == before + [Begin(caller)] + inner
  }

  lemma StillQuerying(before: seq<Event>, now: seq<Event>, later: seq<Event>, caller: Caller, luck: Luck,
                      e: Event)
    requires Querying(before, now, caller, luck) && Operated(now, later, e) && Allowed(e, luck)
    ensures Querying(before, later, caller, luck)
  {
    var inner :| Inner(inner, luck) && now == before + [Begin(caller)] + inner;
    var meanwhile :| Background(meanwhile) && later == now + meanwhile + [e];
    var more := inner + meanwhile + [e];
    assert Inner(more, luck);
    assert later == before + [Begin(caller)] + more;
  }

  method IsBmcInBareMetalMode(fs: FlagFiles, luck: Luck, ghost caller: Caller) returns (mode: Mode)
    requires fs.Valid() && fs.Now().pc == Idle
    modifies fs
    ensures fs.Valid() && Queried(old(fs.log), fs.log, caller, luck, mode)
    ensures fs.Now().caller == caller
    ensures fs.Now().pc == if caller == BootDone && mode == Bm then Shutdown else Idle
    ensures fs.build.bareMetal ==> mode == Bm && fs.flags == old(fs.flags)
    ensures !fs.build.bareMetal ==>
            var start, call := |old(fs.log)|, fs.log[..|fs.log| - 1];
            Held(fs.build, Start(fs.initial), call, start, mode) <==>
            (mode == BmCleaning ==> SignalFirst(fs.build, Start(fs.initial), call, start))
  {
    fs.Note(Begin(caller));
    assert fs.log == old(fs.log) + [Begin(caller)] + [];
    assert Querying(old(fs.log), fs.log, caller, luck);
    if fs.build.bareMetal {
      mode := Bm;
    } else {
      mode := Decide(fs, luck, old(fs.log), caller);
    }
    ghost var now := fs.log;
    fs.Note(Answered(mode));
    ghost var inner :| Inner(inner, luck) && now == old(fs.log) + [Begin(caller)] + inner;
    assert fs.log == old(fs.log) + [Begin(caller)] + inner + [Answered(mode)];
    assert LastCall(fs.log, |old(fs.log)|);
    if !fs.build.bareMetal {
      if mode == BmCleaning {
        CleaningAnswersExactly(fs.build, Start(fs.initial), fs.log, |old(fs.log)|);
      } else {
        AnswersAreLinearizable(fs.build, Start(fs.initial), fs.log, |old(fs.log)|);
      }
    }
  }

  /** The checks of the query, in the order that makes them add up. */
  method Decide(fs: FlagFiles, luck: Luck, ghost before: seq<Event>, ghost caller: Caller) returns (mode: Mode)
    requires fs.Valid() && fs.Now().pc == AskAck && fs.Now().caller == caller
    requires Querying(before, fs.log, caller, luck)
    modifies fs
    ensures fs.Valid() && Querying(before, fs.log, caller, luck)
    ensures fs.Now().pc == Reply(mode) && fs.Now().caller == caller
  {
    ghost var was := fs.log;
    var acked := fs.Exists(Ack);
    StillQuerying(before, was, fs.log, caller, luck, Saw(Ack, acked));
    if acked {
      return Bm;
    }
    was := fs.log;
    var done := fs.Exists(Done);
    StillQuerying(before, was, fs.log, caller, luck, Saw(Done, done));
    if done {
      was := fs.log;
      fs.RenameDone(luck.renames);
      StillQuerying(before, was, fs.log, caller, luck, Renamed(luck.renames));
      return Bm;
    }
    mode := DecideCleaning(fs, luck, before, caller);
  }

  /** The second half: nobody has finished the boot yet, so is it being prepared? */
  method DecideCleaning(fs: FlagFiles, luck: Luck, ghost before: seq<Event>, ghost caller: Caller)
    returns (mode: Mode)
    requires fs.Valid() && fs.Now().pc == AskSignal && fs.Now().caller == caller
    requires Querying(before, fs.log, caller, luck)
    modifies fs
    ensures fs.Valid() && Querying(before, fs.log, caller, luck)
    ensures fs.Now().pc == Reply(mode) && fs.Now().caller == caller
  {
    ghost var was := fs.log;
    var signalled := fs.Exists(Signal);
    StillQuerying(before, was, fs.log, caller, luck, Saw(Signal, signalled));
    if signalled {
      was := fs.log;
      var cleaning := fs.Exists(Cleaning);
      StillQuerying(before, was, fs.log, caller, luck, Saw(Cleaning, cleaning));
      if !cleaning {
        was := fs.log;
        fs.CreateCleaning(luck.creates);
        StillQuerying(before, was, fs.log, caller, luck, Made(luck.creates));
      }
      return BmCleaning;
    }
    return NonBm;
  }

  /** How asking systemd for the target goes: it agrees, it fails, or the call cannot be built. */
  datatype StartCall = Accepted | Rejected | NotBuilt

  /** What a boot-done call adds once its query has answered. */
  function BootTail(b: Build, mode: Mode, start: StartCall): seq<Event> {
    if mode != Bm then []
    else if b.allowlist then [Refused]
    else if start.NotBuilt? then [Abandoned]
    else [Started(start.Accepted?)]
  }

  /** How such a call ends for whoever made it. */
  function BootAnswer(b: Build, mode: Mode, start: StartCall): Answer<()> {
    if mode != Bm then Value(())
    else if b.allowlist then Raised(UnspecifiedError)
    else match start case Accepted => Value(()) case Rejected => Raised(UnspecifiedError) case NotBuilt => Foreign
  }

  /**
   What a boot-done call does after its answer: nothing unless it is bare metal;
   then the target is asked for, unless the build forbids it or the call cannot
   be built. Every way to end tells which of these it was.
   */
  lemma BootEndsExactly(b: Build, mode: Mode, start: StartCall)
    ensures |BootTail(b, mode, start)| == if mode == Bm then 1 else 0
    ensures mode == Bm ==>
              var e := BootTail(b, mode, start)[0];
              && (forall ok :: e == Started(ok) <==> !b.allowlist && !start.NotBuilt? && ok == start.Accepted?)
              && (e == Abandoned <==> !b.allowlist && start.NotBuilt?)
              && (e == Refused <==> b.allowlist)
    ensures var r := BootAnswer(b, mode, start);
            && (r == Value(()) <==> mode != Bm || (!b.allowlist && start.Accepted?))
            && (r == Raised(UnspecifiedError) <==> mode == Bm && (b.allowlist || start.Rejected?))
            && (r == Foreign <==> mode == Bm && !b.allowlist && start.NotBuilt?)
  {
  }

  method LinuxBootDone(fs: FlagFiles, luck: Luck, start: StartCall) returns (r: Answer<()>, ghost mode: Mode)
    requires fs.Valid() && fs.Now().pc == Idle
    modifies fs
    ensures fs.Valid() && fs.Now().pc == Idle
    ensures exists queried :: Queried(old(fs.log), queried, BootDone, luck, mode)
                              && fs.log == queried + BootTail(fs.build, mode, start)
    ensures fs.log != []
    ensures var last := fs.log[|fs.log| - 1];
            && (last == Answered(mode) <==> mode != Bm)
            && (forall ok :: last == Started(ok) <==>
                  mode == Bm && !fs.build.allowlist && !start.NotBuilt? && ok == start.Accepted?)
            && (last == Abandoned <==> mode == Bm && !fs.build.allowlist && start.NotBuilt?)
            && (last == Refused <==> mode == Bm && fs.build.allowlist)
    ensures r == BootAnswer(fs.build, mode, start)
    ensures r == Value(()) <==> mode != Bm || (!fs.build.allowlist && start.Accepted?)
    ensures r == Foreign <==> mode == Bm && !fs.build.allowlist && start.NotBuilt?
    ensures fs.build.bareMetal ==> mode == Bm
  {
    var answer := IsBmcInBareMetalMode(fs, luck, BootDone);
    mode := answer;
    ghost var queried := fs.log;
    if answer != Bm {
      assert fs.log == queried + [];
      return Value(()), mode;
    }
    if fs.build.allowlist {
      fs.Note(Refused);
      return Raised(UnspecifiedError), mode;
    }
    if start.NotBuilt? {
      fs.Note(Abandoned);  // the call is put together outside the try block
      return Foreign, mode;
    }
    fs.Note(Started(start.Accepted?));
    r := if start.Accepted? then Value(()) else Raised(UnspecifiedError);
  }
}

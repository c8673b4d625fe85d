/** The loop that serves requests one after another. */
module Daemon {
  import opened BareMetal
  import opened Commands
  import opened Ipmi
  import opened OsRelease
  import opened Runs
  import opened Server

  /** One request, and where its mode query was answered in the log if it made one. */
  method ServeOne(h: Handler, r: Request) returns (out: Outcome, ghost k: nat)
    requires h.Valid() && (r.world.osRelease.Some? ==> Sized(r.world.osRelease.value.bytes))
    modifies h, h.fs
    ensures h.Valid() && Serves(h.setup, old(h.View()), r, h.View(), out)
    ensures old(h.fs.log) <= h.fs.log
    ensures AsksForMode(r.cmd) ==>
              |old(h.fs.log)| <= k && AnsweredIn(h.setup.build, r, out, h.fs.log, k)
  {
    out := h.HandleSysCommand(r);
    k := 0;
    if r.cmd == GET_BMC_MODE {
      ghost var mode :| Queried(old(h.fs.log), h.fs.log, GetMode, r.world.luck, mode)
                        && out == Success(r.cmd, [ModeByte(mode)]);
      k := AnswerPosition(old(h.fs.log), h.fs.log, GetMode, r.world.luck, mode);
    } else if r.cmd == LINUX_BOOT_DONE {
      ghost var mode, queried :| Queried(old(h.fs.log), queried, BootDone, r.world.luck, mode)
                                 && h.fs.log == queried + BootTail(h.setup.build, mode, r.world.start)
                                 && out == BootReply(h.setup.build, mode, r.world.start);
      k := AnswerPosition(old(h.fs.log), queried, BootDone, r.world.luck, mode);
      assert h.fs.log[k + 1..] == BootTail(h.setup.build, mode, r.world.start);
    }
  }

  lemma AnswerPosition(before: seq<Event>, after: seq<Event>, caller: Caller, luck: Luck, mode: Mode)
    returns (k: nat)
    requires Queried(before, after, caller, luck, mode)
    ensures |before| <= k == |after| - 1 && after[k] == Answered(mode)
  {
    k := |after| - 1;
  }

  /** A run so far: what was answered, the core it left, and where its mode answers are in the log. */
  ghost predicate Progress(p: Setup, core: Core, reqs: seq<Request>, outs: seq<Outcome>, core': Core,
                           log: seq<Event>, at: seq<nat>)
  {
    Served(p, core, reqs, outs) && core' == CoreAfter(p, core, reqs) && Logged(p.build, reqs, outs, log, at)
  }

  lemma ProgressGrows(p: Setup, core: Core, reqs: seq<Request>, outs: seq<Outcome>, now: Core, log: seq<Event>,
                      at: seq<nat>, r: Request, core': Core, out: Outcome, log': seq<Event>, k: nat)
    requires Progress(p, core, reqs, outs, now, log, at) && Undefined !in outs
    requires Serves(p, now, r, core', out) && log <= log'
    requires AsksForMode(r.cmd) ==> |log| <= k && AnsweredIn(p.build, r, out, log', k)
    ensures Progress(p, core, reqs + [r], outs + [out], core', log', at + [k])
  {
    RunGrows(p, core, reqs, outs, r, core', out);
    LoggedGrows(p.build, reqs, outs, log, at, r, out, log', k);
  }

  /** Serves requests until they run out or an execution has no meaning. */
  method ServeAll(h: Handler, reqs: seq<Request>) returns (outs: seq<Outcome>, ghost at: seq<nat>)
    requires h.Valid()
    requires forall r :: r in reqs && r.world.osRelease.Some? ==> Sized(r.world.osRelease.value.bytes)
    modifies h, h.fs
    ensures h.Valid() && |outs| <= |reqs|
    ensures |outs| < |reqs| ==> outs != [] && outs[|outs| - 1] == Undefined
    ensures Served(h.setup, old(h.View()), reqs[..|outs|], outs)
    ensures h.View() == CoreAfter(h.setup, old(h.View()), reqs[..|outs|])
    ensures Logged(h.setup.build, reqs[..|outs|], outs, h.fs.log, at)
    ensures ReportsNeverGoBack(reqs[..|outs|], outs)
    ensures BootsServed(h.setup.build, reqs[..|outs|], outs, h.fs.log, at)
  {
    outs, at := [], [];
    while |outs| < |reqs|
      invariant h.Valid() && |outs| <= |reqs| && Undefined !in outs
      invariant Progress(h.setup, old(h.View()), reqs[..|outs|], outs, h.View(), h.fs.log, at)
      decreases |reqs| - |outs|
    {
      ghost var done, now, log := reqs[..|outs|], h.View(), h.fs.log;
      var r := reqs[|outs|];
      ghost var k;
      var out;
      out, k := ServeOne(h, r);
      assert reqs[..|outs| + 1] == done + [r];
      ProgressGrows(h.setup, old(h.View()), done, outs, now, log, at, r, h.View(), out, h.fs.log, k);
      outs, at := outs + [out], at + [k];
      if out.Undefined? {
        break;
      }
    }
    LoggedNeverGoBack(h.setup.build, h.fs.initial, h.fs.log, reqs[..|outs|], outs, at);
    LoggedBootsAreServed(h.setup.build, h.fs.initial, h.fs.log, reqs[..|outs|], outs, at);
  }
}

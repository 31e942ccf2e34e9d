/**
 The firmware reconfig machine (src/nfp_net_common.c): synchronous and posted reconfig commands
 share one UPDATE register.  A step is one region under reconfig_lock, one access by the single
 synchronous caller, the expiry of the timer together with its handler, or a firmware answer.
 A register value is the set of its one bits.
 */
module Reconfig {
  import opened Wrappers

  type Update = set<nat>

  /** The fields of struct nfp_net and the register.  `running` holds from the write of the register
      until the firmware acknowledges or reports an error, or the driver declares a timeout. */
  datatype Regs = Regs(posted: Update, timerActive: bool, syncPresent: bool, reg: Update, running: bool)

  function Start(r: Regs, update: Update): Regs { r.(reg := update, running := true) }

  function StartAsync(r: Regs, update: Update): Regs {
    Start(r, update + r.posted).(posted := {}, timerActive := true)
  }

  function PostRegs(r: Regs, update: Update): Regs {
    if r.syncPresent || (r.timerActive && r.running) then r.(posted := r.posted + update)
    else StartAsync(r, update)
  }

  function TimerRegs(r: Regs): Regs {
    var r1 := r.(timerActive := false);
    if r.syncPresent then r1
    else if r.posted != {} then StartAsync(r1, {})
    else r1.(running := false)
  }

  function EnterRegs(r: Regs): Regs { r.(syncPresent := true, timerActive := false, posted := {}) }

  /** The end of __nfp_net_reconfig(), or of wait_posted(), which leaves posted bits alone. */
  function LeaveRegs(r: Regs, viaReconfig: bool): Regs {
    (if viaReconfig && r.posted != {} then StartAsync(r, {}) else r).(syncPresent := false)
  }

  /** struct nfp_net, its reconfig part */
  class NfpNet {
    var reconfigPosted: Update
    var reconfigTimerActive: bool
    var reconfigSyncPresent: bool
    var updateReg: Update
    var running: bool

    constructor ()
      ensures State() == Regs({}, false, false, {}, false)
    {
      reconfigPosted, updateReg := {}, {};
      reconfigTimerActive, reconfigSyncPresent, running := false, false, false;
    }

    function State(): Regs
      reads this
    {
      Regs(reconfigPosted, reconfigTimerActive, reconfigSyncPresent, updateReg, running)
    }

    method ReconfigStart(update: Update)
      modifies this
      ensures State() == Start(old(State()), update)
    {
      updateReg := update;
      running := true;
    }

    method ReconfigStartAsync(update: Update)
      modifies this
      ensures State() == StartAsync(old(State()), update)
    {
      var all := update + reconfigPosted;
      reconfigPosted := {};
      ReconfigStart(all);
      reconfigTimerActive := true;
    }

    /** `last` makes an unanswered command count as timed out. */
    method CheckDone(last: bool) returns (done: bool)
      modifies this`running
      ensures done == (last || !old(running)) && running == (old(running) && !last)
    {
      if !running {
        return true;
      }
      if last {
        running := false;
        return true;
      }
      return false;
    }

    method ReconfigTimer()
      modifies this
      ensures State() == TimerRegs(old(State()))
    {
      reconfigTimerActive := false;
      if reconfigSyncPresent {
        return;
      }
      var _ := CheckDone(true);
      if reconfigPosted != {} {
        ReconfigStartAsync({});
      }
    }

    method ReconfigPost(update: Update)
      modifies this
      ensures State() == PostRegs(old(State()), update)
    {
      if reconfigSyncPresent {
        reconfigPosted := reconfigPosted + update;
        return;
      }
      var done := !reconfigTimerActive;
      if !done {
        done := CheckDone(false);
      }
      if done {
        ReconfigStartAsync(update);
      } else {
        reconfigPosted := reconfigPosted + update;
      }
    }

    method SyncEnter() returns (cancelledTimer: bool, prePosted: Update)
      modifies this
      ensures State() == EnterRegs(old(State()))
      ensures cancelledTimer == old(reconfigTimerActive) && prePosted == old(reconfigPosted)
    {
      cancelledTimer := false;
      reconfigSyncPresent := true;
      if reconfigTimerActive {
        reconfigTimerActive := false;
        cancelledTimer := true;
      }
      prePosted := reconfigPosted;
      reconfigPosted := {};
    }

    method Leave(viaReconfig: bool)
      modifies this
      ensures State() == LeaveRegs(old(State()), viaReconfig)
    {
      if viaReconfig && reconfigPosted != {} {
        ReconfigStartAsync({});
      }
      reconfigSyncPresent := false;
    }
  }

  // ---- all interleavings ----

  /** Progress of the synchronous caller, who is alone because callers are serialised.  `main` is the
      command it came to run, or None for wait_posted(). */
  datatype Sync =
    | NoSync
    | Cancelling(pre: Update, main: Option<Update>)  // an earlier posted command may still be running
    | Flushing(pre: Update, main: Option<Update>)    // about to run what was posted before
    | FlushWait(main: Option<Update>)
    | Entered(main: Option<Update>)                  // sync_enter() is over
    | MainWait
    | Leaving(viaReconfig: bool)                     // about to take the lock for the last time

  /** Who writes the register: the machinery of posted commands, or the synchronous caller, for what was posted before
      it came or for what it came to run. */
  datatype Writer = Posted | Before | Own

  /** What happened, in order: a request to post bits, a synchronous call, and a write of the register. */
  datatype Record = Asked(bits: Update) | Called(main: Option<Update>) | Wrote(bits: Update, writer: Writer)

  datatype State = State(r: Regs, sync: Sync, log: seq<Record>)

  const INIT: State := State(Regs({}, false, false, {}, false), NoSync, [])

  datatype Event =
    | Post(update: Update)
    | Timer
    | Answer
    | SyncEnter(main: Option<Update>)
    | Cancelled
    | Flush
    | Flushed
    | Main
    | MainDone
    | Leave

  predicate Enabled(s: State, e: Event) {
    match e
    case Post(_) => true
    case Timer => s.r.timerActive
    case Answer => s.r.running
    case SyncEnter(_) => s.sync == NoSync
    case Cancelled => s.sync.Cancelling?
    case Flush => s.sync.Flushing?
    case Flushed => s.sync.FlushWait?
    case Main => s.sync.Entered?
    case MainDone => s.sync == MainWait
    case Leave => s.sync.Leaving?
  }

  /** The step writes the register. */
  predicate Writes(s: State, e: Event)
    requires Enabled(s, e)
  {
    match e
    case Post(_) => !(s.r.syncPresent || (s.r.timerActive && s.r.running))
    case Timer => !s.r.syncPresent && s.r.posted != {}
    case Flush => s.sync.pre != {}
    case Main => s.sync.main.Some?
    case Leave => s.sync.viaReconfig && s.r.posted != {}
    case _ => false
  }

  function NextRegs(s: State, e: Event): Regs
    requires Enabled(s, e)
  {
    match e
    case Post(update) => PostRegs(s.r, update)
    case Timer => TimerRegs(s.r)
    case SyncEnter(_) => EnterRegs(s.r)
    case Flush => if s.sync.pre != {} then Start(s.r, s.sync.pre) else s.r
    case Main => if s.sync.main.Some? then Start(s.r, s.sync.main.value) else s.r
    case Leave => LeaveRegs(s.r, s.sync.viaReconfig)
    case _ => s.r.(running := false)
  }

  function NextSync(s: State, e: Event): Sync
    requires Enabled(s, e)
  {
    match e
    case SyncEnter(main) =>
      if s.r.timerActive then Cancelling(s.r.posted, main) else Flushing(s.r.posted, main)
    case Cancelled => Flushing(s.sync.pre, s.sync.main)
    case Flush => if s.sync.pre != {} then FlushWait(s.sync.main) else Entered(s.sync.main)
    case Flushed => Entered(s.sync.main)
    case Main => if s.sync.main.Some? then MainWait else Leaving(false)
    case MainDone => Leaving(true)
    case Leave => NoSync
    case _ => s.sync
  }

  function Apply(s: State, e: Event): State
    requires Enabled(s, e)
  {
    var r := NextRegs(s, e);
    State(r, NextSync(s, e), s.log + Arrivals(e) + (if Writes(s, e) then [Wrote(r.reg, WriterOf(e))] else []))
  }

  function Arrivals(e: Event): seq<Record> {
    match e
    case Post(update) => [Asked(update)]
    case SyncEnter(main) => [Called(main)]
    case _ => []
  }

  function WriterOf(e: Event): Writer { if e.Flush? then Before else if e.Main? then Own else Posted }

  /** Bits taken out of reconfig_posted by the synchronous caller and not written yet. */
  function InHand(s: State): Update {
    if s.sync.Cancelling? || s.sync.Flushing? then s.sync.pre else {}
  }

  /** Nothing runs unless somebody is responsible for it. */
  predicate RunsGuarded(s: State) {
    && (s.r.syncPresent <==> s.sync != NoSync)
    && (s.r.syncPresent ==> !s.r.timerActive)
    && (s.r.running ==> s.r.timerActive || s.sync.Cancelling? || s.sync.FlushWait? || s.sync == MainWait)
  }

  /** Bit b was written at or after position i. */
  ghost predicate WrittenSince(log: seq<Record>, i: nat, b: nat) {
    exists j :: i <= j < |log| && log[j].Wrote? && b in log[j].bits
  }

  ghost predicate Conserved(s: State) {
    forall i, b :: 0 <= i < |s.log| && s.log[i].Asked? && b in s.log[i].bits ==>
      b in s.r.posted || b in InHand(s) || WrittenSince(s.log, i, b)
  }

  ghost predicate Inv(s: State) { RunsGuarded(s) && Conserved(s) }

  lemma ConservedKeeps(s: State, e: Event)
    requires Inv(s) && Enabled(s, e)
    ensures Conserved(Apply(s, e))
  {
    var t := Apply(s, e);
    forall i, b | 0 <= i < |t.log| && t.log[i].Asked? && b in t.log[i].bits
      ensures b in t.r.posted || b in InHand(t) || WrittenSince(t.log, i, b)
    {
      if Writes(s, e) { assert t.log[|t.log| - 1] == Wrote(t.r.reg, WriterOf(e)); }
      if i < |s.log| {
        assert t.log[i] == s.log[i];
        if WrittenSince(s.log, i, b) {
          var j :| i <= j < |s.log| && s.log[j].Wrote? && b in s.log[j].bits;
          assert t.log[j] == s.log[j];
        }
      }
    }
  }

  lemma StepKeeps(s: State, e: Event)
    requires Inv(s) && Enabled(s, e)
    ensures Inv(Apply(s, e))
  {
    ConservedKeeps(s, e);
  }

  ghost predicate Legal(s: State, es: seq<Event>)
    decreases |es|
  {
    es == [] || (Enabled(s, es[0]) && Legal(Apply(s, es[0]), es[1..]))
  }

  ghost function Exec(s: State, es: seq<Event>): State
    requires Legal(s, es)
    decreases |es|
  {
    if es == [] then s else Exec(Apply(s, es[0]), es[1..])
  }

  ghost predicate Reachable(s: State) {
    exists es :: Legal(INIT, es) && s == Exec(INIT, es)
  }

  lemma {:induction false} ExecInv(s: State, es: seq<Event>)
    requires Inv(s) && Legal(s, es)
    ensures Inv(Exec(s, es))
    decreases |es|
  {
    if es != [] {
      StepKeeps(s, es[0]);
      ExecInv(Apply(s, es[0]), es[1..]);
    }
  }

  lemma ReachableInv(s: State)
    requires Reachable(s)
    ensures Inv(s)
  {
    var es :| Legal(INIT, es) && s == Exec(INIT, es);
    ExecInv(INIT, es);
  }

  /** Every bit ever posted is still posted, or held by the synchronous caller that is about to write
      it, or has been written since; when nobody is in the way, it is one of posted or written. */
  lemma PostedBitsConserved(s: State, i: nat, b: nat)
    requires Reachable(s) && i < |s.log| && s.log[i].Asked? && b in s.log[i].bits
    ensures b in s.r.posted || b in InHand(s) || WrittenSince(s.log, i, b)
    ensures s.sync == NoSync ==> b in s.r.posted || WrittenSince(s.log, i, b)
  {
    ReachableInv(s);
  }

  /** No command is started while another is neither answered nor timed out. */
  lemma NoOverlap(s: State, e: Event)
    requires Reachable(s) && Enabled(s, e) && Writes(s, e)
    ensures !s.r.running || e == Timer
  {
    ReachableInv(s);
  }

  /** In every run a post is started at once exactly if no synchronous caller is present and no command is running; the
      timer starts what was posted meanwhile, and so does a synchronous caller at its end if it ran a command. */
  lemma StartsExactly(s: State, e: Event)
    requires Reachable(s) && Enabled(s, e)
    ensures Writes(s, e) <==>
            match e
            case Post(_) => s.sync == NoSync && !s.r.running
            case Timer => s.r.posted != {}
            case Flush => s.sync.pre != {}
            case Main => s.sync.main.Some?
            case Leave => s.sync.viaReconfig && s.r.posted != {}
            case _ => false
    ensures Writes(s, e) ==> Apply(s, e).r.running
    ensures Writes(s, e) && (e.Post? || e.Timer? || e.Leave?) ==>
              Apply(s, e).r.timerActive && Apply(s, e).r.posted == {}
  {
    ReachableInv(s);
  }

  /** Posted bits that nobody is going to write. */
  predicate Stranded(s: State) { s.r.posted != {} && !s.r.timerActive && !s.r.syncPresent }

  /** Bits get stranded in exactly one way: by the end of wait_posted() after bits were posted during
      it, because that path does not start them. */
  lemma StrandedExactly(s: State, e: Event)
    requires Reachable(s) && Enabled(s, e) && !Stranded(s)
    ensures Stranded(Apply(s, e)) <==> e == Leave && !s.sync.viaReconfig && s.r.posted != {}
  {
    ReachableInv(s);
  }

  /** The next post or synchronous call picks stranded bits up again. */
  lemma StrandedRecovers(s: State, e: Event)
    requires Reachable(s) && Stranded(s) && Enabled(s, e) && (e.Post? || e.SyncEnter?)
    ensures var t := Apply(s, e);
            !Stranded(t) && (if e.Post? then s.r.posted + e.update == t.r.reg else s.r.posted == InHand(t))
  {
    ReachableInv(s);
  }

  /** It does happen. */
  lemma StrandingRun()
    ensures var es := [SyncEnter(None), Flush, Main, Post({0}), Leave];
            Legal(INIT, es) && Stranded(Exec(INIT, es))
  {
    var s1 := Apply(INIT, SyncEnter(None));
    var s2 := Apply(s1, Flush);
    var s3 := Apply(s2, Main);
    var s4 := Apply(s3, Post({0}));
    var s5 := Apply(s4, Leave);
    var es := [SyncEnter(None), Flush, Main, Post({0}), Leave];
    assert es[1..][1..][1..][1..] == [Leave];
    assert Exec(s4, [Leave]) == s5;
  }

  // ---- what every write is for ----

  /** The bits asked for since a synchronous call or a posted command last took them. */
  function Since(log: seq<Record>): Update {
    if log == [] then {}
    else
      var before, last := log[..|log| - 1], log[|log| - 1];
      match last
      case Asked(bits) => Since(before) + bits
      case Called(_) => {}
      case Wrote(_, writer) => if writer == Posted then {} else Since(before)
  }

  /** The last synchronous call: the bits asked for when it came, what it came to run, and what it wrote so far. */
  datatype Call = Call(pre: Update, main: Option<Update>, wrote: seq<Record>)

  function LastCall(log: seq<Record>): Call {
    if log == [] then Call({}, None, [])
    else
      var before, last := log[..|log| - 1], log[|log| - 1];
      match last
      case Asked(_) => LastCall(before)
      case Called(main) => Call(Since(before), main, [])
      case Wrote(_, writer) =>
        var c := LastCall(before); if writer == Posted then c else c.(wrote := c.wrote + [last])
  }

  /** First what was posted before the call, if anything. */
  function WritesBefore(c: Call): seq<Record> { if c.pre == {} then [] else [Wrote(c.pre, Before)] }

  /** Then the command it came to run, if any. */
  function AllWrites(c: Call): seq<Record> {
    WritesBefore(c) + if c.main.Some? then [Wrote(c.main.value, Own)] else []
  }

  /** The caller has done what is due where it stands. */
  predicate OnTrack(sync: Sync, c: Call) {
    match sync
    case NoSync => true
    case Cancelling(pre, main) => pre == c.pre && main == c.main && c.wrote == []
    case Flushing(pre, main) => pre == c.pre && main == c.main && c.wrote == []
    case FlushWait(main) => main == c.main && c.wrote == WritesBefore(c)
    case Entered(main) => main == c.main && c.wrote == WritesBefore(c)
    case MainWait => c.main.Some? && c.wrote == AllWrites(c)
    case Leaving(viaReconfig) => viaReconfig == c.main.Some? && c.wrote == AllWrites(c)
  }

  /** The write at position j has the bits it should. */
  predicate Explained(log: seq<Record>, j: nat)
    requires j < |log| && log[j].Wrote?
  {
    var c := LastCall(log[..j]);
    match log[j].writer
    case Posted => log[j].bits == Since(log[..j])
    case Before => log[j].bits == c.pre && c.pre != {}
    case Own => c.main == Some(log[j].bits)
  }

  ghost predicate AllExplained(log: seq<Record>) { forall j :: 0 <= j < |log| && log[j].Wrote? ==> Explained(log, j) }

  ghost predicate Tracked(s: State) {
    s.r.posted == Since(s.log) && OnTrack(s.sync, LastCall(s.log)) && AllExplained(s.log)
  }

  lemma Appended(log: seq<Record>, x: Record)
    ensures (log + [x])[..|log|] == log && (log + [x])[|log|] == x
  {
  }

  lemma ExplainedOn(log: seq<Record>, x: Record)
    requires AllExplained(log) && (x.Wrote? ==> Explained(log + [x], |log|))
    ensures AllExplained(log + [x])
  {
    forall j | 0 <= j < |log + [x]| && (log + [x])[j].Wrote? ensures Explained(log + [x], j) {
      if j < |log| {
        assert (log + [x])[..j] == log[..j] && (log + [x])[j] == log[j];
        assert Explained(log, j);
      }
    }
  }

  /** A step that writes nothing and takes nothing. */
  lemma SilentTracked(s: State, e: Event)
    requires Inv(s) && Enabled(s, e) && Tracked(s) && !Writes(s, e) && !e.Post? && !e.SyncEnter?
    ensures Tracked(Apply(s, e))
  {
    assert Apply(s, e).log == s.log;
  }

  lemma CallTracked(s: State, e: Event)
    requires Inv(s) && Enabled(s, e) && Tracked(s) && e.SyncEnter?
    ensures Tracked(Apply(s, e))
  {
    assert Apply(s, e).log == s.log + [Called(e.main)];
    Appended(s.log, Called(e.main));
    ExplainedOn(s.log, Called(e.main));
  }

  lemma AskedTracked(log: seq<Record>, update: Update)
    requires AllExplained(log)
    ensures var asked := log + [Asked(update)];
            Since(asked) == Since(log) + update && LastCall(asked) == LastCall(log) && AllExplained(asked)
  {
    Appended(log, Asked(update));
    ExplainedOn(log, Asked(update));
  }

  lemma PostedTracked(log: seq<Record>, x: Record)
    requires AllExplained(log) && x == Wrote(Since(log), Posted)
    ensures Since(log + [x]) == {} && LastCall(log + [x]) == LastCall(log) && AllExplained(log + [x])
  {
    Appended(log, x);
    ExplainedOn(log, x);
  }

  lemma PostTracked(s: State, e: Event)
    requires Inv(s) && Enabled(s, e) && Tracked(s) && e.Post?
    ensures Tracked(Apply(s, e))
  {
    var asked := s.log + [Asked(e.update)];
    AskedTracked(s.log, e.update);
    if Writes(s, e) {
      var x := Wrote(Apply(s, e).r.reg, Posted);
      assert Apply(s, e).log == asked + [x];
      PostedTracked(asked, x);
    } else {
      assert Apply(s, e).log == asked;
    }
  }

  lemma WriteTracked(s: State, e: Event)
    requires Inv(s) && Enabled(s, e) && Tracked(s) && Writes(s, e) && !e.Post?
    ensures Tracked(Apply(s, e))
  {
    var x := Wrote(Apply(s, e).r.reg, WriterOf(e));
    assert Apply(s, e).log == s.log + [x];
    Appended(s.log, x);
    ExplainedOn(s.log, x);
  }

  lemma StepTracked(s: State, e: Event)
    requires Inv(s) && Enabled(s, e) && Tracked(s)
    ensures Tracked(Apply(s, e))
  {
    if e.SyncEnter? {
      CallTracked(s, e);
    } else if e.Post? {
      PostTracked(s, e);
    } else if Writes(s, e) {
      WriteTracked(s, e);
    } else {
      SilentTracked(s, e);
    }
  }

  lemma {:induction false} ExecTracked(s: State, es: seq<Event>)
    requires Inv(s) && Tracked(s) && Legal(s, es)
    ensures Tracked(Exec(s, es))
    decreases |es|
  {
    if es != [] {
      StepKeeps(s, es[0]);
      StepTracked(s, es[0]);
      ExecTracked(Apply(s, es[0]), es[1..]);
    }
  }

  /** In every run every write of the register has exactly the bits it is for: a posted command all that was asked
      for and not taken yet, a synchronous call first what was asked for and not taken when it came, then its own
      command. */
  lemma WritesExplained(s: State, j: nat)
    requires Reachable(s) && j < |s.log| && s.log[j].Wrote?
    ensures Explained(s.log, j)
  {
    var es :| Legal(INIT, es) && s == Exec(INIT, es);
    ExecTracked(INIT, es);
  }

  /** In every run, a synchronous call that is about to return has written exactly that, in that order and once each. */
  lemma CallWritesExactly(s: State)
    requires Reachable(s) && s.sync.Leaving?
    ensures var c := LastCall(s.log); c.wrote == AllWrites(c) && s.sync.viaReconfig == c.main.Some?
  {
    var es :| Legal(INIT, es) && s == Exec(INIT, es);
    ExecTracked(INIT, es);
  }

  /** What a synchronous caller came to run is in the register when it starts to wait for it. */
  lemma CommandInRegister(s: State)
    requires Reachable(s) && s.sync.Entered? && s.sync.main.Some?
    ensures var t := Apply(s, Main); t.r.running && t.r.reg == s.sync.main.value && LastCall(s.log).main == s.sync.main
  {
    var es :| Legal(INIT, es) && s == Exec(INIT, es);
    ExecTracked(INIT, es);
  }
}

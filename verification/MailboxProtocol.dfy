/**
 The request queue of the CCM mailbox (src/ccm_mbox.c) as a state machine.

 Threads calling communicate(), the two work items and the firmware act in
 atomic steps; a step is one region under the queue lock, or one unlocked test.
 Messages are numbered in the order in which they are enqueued, so that an
 identifier is an index into `msgs`, and the tag of message `i` is `i` modulo 2^16.
 */
module MailboxProtocol {
  import opened Wrappers

  const BATCH_LIMIT: nat := 64
  const MAX_QLEN: nat := 1024
  const EIO: int := -5
  const ENOENT: int := -2
  const ETIMEDOUT: int := -110

  /** cb->state */
  datatype Stage = Queued | Next | Busy | ReplyFound | Done

  /** Where the thread that owns a message stands; a posted message has no thread. */
  datatype Pc =
    | NoThread
    | Sleeping                 // in wait_event_timeout()
    | Woken(to: bool)          // wait returned, message not looked at yet
    | Retrying(to: bool)       // message was not done, about to take the lock
    | Running                  // inside run_queue_unlock()
    | Draining                 // in wait_event() of unlink_unlock()
    | Releasing                // batch completed, control BAR lock still held
    | Gone(result: int)        // returned to the caller

  datatype Msg = Msg(stage: Stage, err: int, posted: bool, maxLen: nat, pc: Pc)

  datatype Runner = Thread(id: nat) | RunqWork | WaitWork

  /** Selected: waiting for the BAR lock.  Posted: wait_work is pending.
      Submitted: the firmware has the batch, or has answered it. */
  datatype Phase = Selected | Posted | Submitted

  /** The active batch is the first `size` messages of the queue. */
  datatype Batch = Batch(runner: Runner, size: nat, phase: Phase)

  /** Who holds the control BAR lock. */
  datatype Bar = Free | Active | Finishing(runner: Runner) | Other

  datatype State = State(
    mboxLen: nat,
    msgs: seq<Msg>,
    queue: seq<nat>,
    batch: Option<Batch>,
    bar: Bar,
    runqPending: bool,
    waitPending: bool,
    completed: seq<nat>)       // identifiers in the order they were completed

  function Init(mboxLen: nat): State {
    State(mboxLen, [], [], None, Free, false, false, [])
  }

  // ---- batch selection (run_queue_unlock) ----

  /** Space for messages: the mailbox less the command header and the End TLV. */
  function Space(mboxLen: nat): int {
    mboxLen - 8 - 4
  }

  /** `n` messages are taken and `space` bytes are left; take more while they fit. */
  function Extend(space: int, lens: seq<nat>, n: nat): (r: nat)
    requires n <= |lens|
    ensures n <= r <= |lens|
    decreases |lens| - n
  {
    if n == |lens| || n >= BATCH_LIMIT || space - (4 + lens[n]) < 0 then n
    else Extend(space - (4 + lens[n]), lens, n + 1)
  }

  function BatchLen(space: int, lens: seq<nat>): (r: nat)
    requires lens != []
    ensures 1 <= r <= |lens|
  {
    Extend(space - (4 + lens[0]), lens, 1)
  }

  predicate IdsOk(msgs: seq<Msg>, ids: seq<nat>) {
    forall p :: 0 <= p < |ids| ==> ids[p] < |msgs|
  }

  function Lens(msgs: seq<Msg>, ids: seq<nat>): (r: seq<nat>)
    requires IdsOk(msgs, ids)
    ensures |r| == |ids|
  {
    if ids == [] then [] else [msgs[ids[0]].maxLen] + Lens(msgs, ids[1..])
  }

  function MarkBusy(msgs: seq<Msg>, ids: seq<nat>): seq<Msg> {
    seq(|msgs|, i requires 0 <= i < |msgs| => if i in ids then msgs[i].(stage := Busy) else msgs[i])
  }

  function Select(s: State, runner: Runner): State
    requires s.queue != [] && IdsOk(s.msgs, s.queue)
  {
    SelectN(s, runner, BatchLen(Space(s.mboxLen), Lens(s.msgs, s.queue)))
  }

  function SelectN(s: State, runner: Runner, n: nat): State
    requires 1 <= n <= |s.queue|
  {
    s.(msgs := MarkBusy(s.msgs, s.queue[1..n]), batch := Some(Batch(runner, n, Selected)))
  }

  // ---- hand-over and completion ----

  function MarkNext(s: State): State
    requires IdsOk(s.msgs, s.queue)
  {
    if s.queue == [] then s
    else
      var h := s.queue[0];
      s.(msgs := s.msgs[h := s.msgs[h].(stage := Next)],
         runqPending := s.runqPending || s.msgs[h].posted)
  }

  /** One message leaving the queue in copy_out() or mark_all_err(). */
  function Finish(m: Msg, failed: bool): Msg {
    m.(stage := Done,
       err := if failed then EIO else if m.stage != ReplyFound then ENOENT else m.err)
  }

  function FinishAll(msgs: seq<Msg>, ids: seq<nat>, failed: bool): seq<Msg> {
    seq(|msgs|, i requires 0 <= i < |msgs| => if i in ids then Finish(msgs[i], failed) else msgs[i])
  }

  function SetPc(s: State, id: nat, pc: Pc): State
    requires id < |s.msgs|
  {
    s.(msgs := s.msgs[id := s.msgs[id].(pc := pc)])
  }

  // ---- events ----

  datatype Event =
    | Communicate(maxLen: nat, critical: bool)
    | Wake(id: nat, to: bool)
    | CheckDone(id: nat)
    | Relock(id: nat)
    | Drained(id: nat)
    | AcquireBar
    | ParseReply(id: nat, good: bool)
    | Complete(failed: bool)
    | ReleaseBar
    | RunqStart
    | Post(maxLen: nat)
    | WaitStart
    | OtherLock
    | OtherUnlock

  predicate Waits(s: State, id: nat, pc: Pc) {
    id < |s.msgs| && s.msgs[id].pc == pc
  }

  predicate Wakeable(m: Msg) { m.stage == Done || m.stage == Next }

  predicate Enabled(s: State, e: Event) {
    match e
    case Communicate(_, _) => true
    case Wake(id, to) => Waits(s, id, Sleeping) && to == !Wakeable(s.msgs[id])
    case CheckDone(id) => id < |s.msgs| && s.msgs[id].pc.Woken?
    case Relock(id) => id < |s.msgs| && s.msgs[id].pc.Retrying?
    case Drained(id) => Waits(s, id, Draining) && s.msgs[id].stage == Done
    case AcquireBar => s.batch.Some? && s.batch.value.phase == Selected && s.bar == Free
    case ParseReply(id, _) =>
      s.batch.Some? && s.batch.value.phase == Submitted && s.batch.value.size <= |s.queue| &&
      id in s.queue[..s.batch.value.size] && id < |s.msgs|
    case Complete(_) => s.batch.Some? && s.batch.value.phase == Submitted
    case ReleaseBar => s.bar.Finishing?
    case RunqStart => s.runqPending
    case Post(_) => true
    case WaitStart => s.waitPending
    case OtherLock => s.bar == Free
    case OtherUnlock => s.bar == Other
  }

  predicate IsFirst(s: State, id: nat) { s.queue != [] && s.queue[0] == id }

  predicate QueueFull(s: State) { |s.queue| >= MAX_QLEN }

  function Enqueue(s: State, posted: bool, maxLen: nat): State {
    s.(msgs := s.msgs + [Msg(Queued, 0, posted, maxLen, if posted then NoThread else Sleeping)],
       queue := s.queue + [|s.msgs|])
  }

  /** communicate(): enqueue, and run the queue when first. */
  function DoCommunicate(s: State, maxLen: nat, critical: bool): State
    requires IdsOk(s.msgs, s.queue)
  {
    if !critical && QueueFull(s) then s
    else
      var t := Enqueue(s, false, maxLen);
      var id := |s.msgs|;
      if IsFirst(t, id) then Select(SetPc(t, id, Running), Thread(id)) else t
  }

  predicate InProgress(m: Msg) { m.stage != Queued && m.stage != Next }

  function Remove(q: seq<nat>, id: nat): seq<nat> {
    if q == [] then [] else if q[0] == id then q[1..] else [q[0]] + Remove(q[1..], id)
  }

  /** The locked part of a waiter that found its message not done. */
  function DoRelock(s: State, id: nat): State
    requires IdsOk(s.msgs, s.queue) && id < |s.msgs|
  {
    if IsFirst(s, id) then Select(SetPc(s, id, Running), Thread(id))
    else Unlink(s, id)
  }

  /** unlink_unlock() */
  function Unlink(s: State, id: nat): State
    requires IdsOk(s.msgs, s.queue) && id < |s.msgs|
  {
    if InProgress(s.msgs[id]) then SetPc(s, id, Draining)
    else
      RemoveKeeps(s.msgs, s.queue, id);
      var t := SetPc(s, id, Gone(ETIMEDOUT)).(queue := Remove(s.queue, id));
      if s.msgs[id].stage == Next then MarkNext(t) else t
  }

  function DoParse(s: State, id: nat, good: bool): State
    requires id < |s.msgs|
  {
    var m := s.msgs[id];
    s.(msgs := s.msgs[id := if good then m.(stage := ReplyFound) else m.(err := EIO)])
  }

  /** The locked end of copy_out() and mark_all_err(). */
  function DoComplete(s: State, failed: bool): State
    requires IdsOk(s.msgs, s.queue)
    requires s.batch.Some? && s.batch.value.size <= |s.queue|
  {
    var n := s.batch.value.size;
    var t := s.(msgs := FinishAll(s.msgs, s.queue[..n], failed), queue := s.queue[n..],
                batch := None, bar := Finishing(s.batch.value.runner),
                completed := s.completed + s.queue[..n]);
    var r := s.batch.value.runner;
    assert forall p :: 0 <= p < |t.queue| ==> t.queue[p] == s.queue[n + p];
    MarkNext(if r.Thread? && r.id < |t.msgs| then SetPc(t, r.id, Releasing) else t)
  }

  function DoRelease(s: State): State
    requires s.bar.Finishing?
  {
    var r := s.bar.runner;
    var t := s.(bar := Free);
    if r.Thread? && r.id < |t.msgs| then SetPc(t, r.id, Gone(t.msgs[r.id].err)) else t
  }

  /** runq_work finds the head unfit: its WARN_ON. */
  predicate RunqUnfit(s: State)
    requires IdsOk(s.msgs, s.queue)
  {
    s.queue == [] || !s.msgs[s.queue[0]].posted || s.msgs[s.queue[0]].stage != Next
  }

  function DoRunq(s: State): State
    requires IdsOk(s.msgs, s.queue)
  {
    var t := s.(runqPending := false);
    if RunqUnfit(t) then t else Select(t, RunqWork)
  }

  function DoPost(s: State, maxLen: nat): State
    requires IdsOk(s.msgs, s.queue)
  {
    if QueueFull(s) then s
    else
      var t := Enqueue(s, true, maxLen);
      if !IsFirst(t, |s.msgs|) then t
      else if s.bar == Free then
        t.(bar := Active, batch := Some(Batch(WaitWork, 1, Posted)), waitPending := true)
      else MarkNext(t)
  }

  predicate WaitUnfit(s: State)
    requires IdsOk(s.msgs, s.queue)
  {
    s.queue == [] || !s.msgs[s.queue[0]].posted
  }

  function DoWait(s: State): State
    requires IdsOk(s.msgs, s.queue) && s.batch.Some?
  {
    var t := s.(waitPending := false);
    if WaitUnfit(s) then t.(bar := Free)
    else t.(batch := Some(s.batch.value.(phase := Submitted)))
  }

  function Apply(s: State, e: Event): State
    requires Inv(s) && Enabled(s, e)
  {
    match e
    case Communicate(maxLen, critical) => DoCommunicate(s, maxLen, critical)
    case Wake(id, to) => SetPc(s, id, Woken(to))
    case CheckDone(id) =>
      if s.msgs[id].stage == Done then SetPc(s, id, Gone(s.msgs[id].err))
      else SetPc(s, id, Retrying(s.msgs[id].pc.to))
    case Relock(id) => DoRelock(s, id)
    case Drained(id) => SetPc(s, id, Gone(s.msgs[id].err))
    case AcquireBar => s.(bar := Active, batch := Some(s.batch.value.(phase := Submitted)))
    case ParseReply(id, good) => DoParse(s, id, good)
    case Complete(failed) => DoComplete(s, failed)
    case ReleaseBar => DoRelease(s)
    case RunqStart => DoRunq(s)
    case Post(maxLen) => DoPost(s, maxLen)
    case WaitStart => DoWait(s)
    case OtherLock => s.(bar := Other)
    case OtherUnlock => s.(bar := Free)
  }

  // ---- the invariant ----

  function BatchSize(s: State): nat { if s.batch.Some? then s.batch.value.size else 0 }

  predicate Increasing(q: seq<nat>) {
    forall p, r :: 0 <= p < r < |q| ==> q[p] < q[r]
  }

  /** Stage of the message at queue position p. */
  predicate StageOk(s: State, p: nat, m: Msg) {
    if p < BatchSize(s) then
      if p == 0 then m.stage == Queued || m.stage == Next || m.stage == ReplyFound
      else m.stage == Busy || m.stage == ReplyFound
    else if p == 0 then m.stage == Next
    else m.stage == Queued
  }

  predicate WaitingPc(pc: Pc) {
    pc == Sleeping || pc.Woken? || pc.Retrying? || pc == Draining
  }

  /** A waiter whose wait did not time out was woken as the next runner. */
  predicate PcOk(m: Msg) {
    && (m.pc == Draining ==> InProgress(m))
    && (m.pc == Woken(false) ==> Wakeable(m))
    && (m.pc == Retrying(false) ==> m.stage == Next)
  }

  predicate QueuedOk(s: State, p: nat, id: nat, m: Msg) {
    && StageOk(s, p, m)
    && (m.posted ==> m.pc == NoThread)
    && (!m.posted ==>
          if p == 0 && s.batch.Some? then s.batch.value.runner == Thread(id) && m.pc == Running
          else WaitingPc(m.pc) && PcOk(m))
  }

  /** A message that left the queue is done, or its waiter gave up on it. */
  predicate LeftOk(s: State, id: nat, m: Msg) {
    || (m.pc == Gone(ETIMEDOUT) && m.stage == Queued)
    || (&& m.stage == Done
        && (m.posted ==> m.pc == NoThread)
        && m.pc != Retrying(false)
        && (!m.posted ==> WaitingPc(m.pc) || m.pc == Gone(m.err)
                          || (m.pc == Releasing && s.bar == Finishing(Thread(id)))))
  }

  /** The head's runner, by kind of message, and who is pending. */
  predicate RunnerOk(s: State)
    requires IdsOk(s.msgs, s.queue)
  {
    match s.batch
    case None =>
      && !s.waitPending && s.bar != Active
      && (s.runqPending <==> s.queue != [] && s.msgs[s.queue[0]].posted)
    case Some(b) =>
      && 1 <= b.size <= |s.queue|
      && !s.runqPending
      && (s.waitPending <==> b.phase == Posted)
      && (b.phase == Selected <==> s.bar != Active)
      && (s.msgs[s.queue[0]].posted <==> !b.runner.Thread?)
      && (b.runner == WaitWork ==> b.size == 1 && b.phase != Selected)
      && (b.phase == Posted ==> b.runner == WaitWork)
  }

  predicate FinishingOk(s: State) {
    s.bar.Finishing? && s.bar.runner.Thread? ==>
      var id := s.bar.runner.id;
      id < |s.msgs| && id !in s.queue && s.msgs[id].pc == Releasing && s.msgs[id].stage == Done
  }

  /** Done messages are exactly the completed ones: once each, in FIFO order, and before the queue. */
  predicate CompletedOk(s: State) {
    && Increasing(s.queue)
    && Increasing(s.completed)
    && (forall a, p :: 0 <= a < |s.completed| && 0 <= p < |s.queue| ==> s.completed[a] < s.queue[p])
    && IdsOk(s.msgs, s.completed)
    && (forall id :: 0 <= id < |s.msgs| ==> (s.msgs[id].stage == Done <==> id in s.completed))
  }

  predicate QueueOk(s: State) {
    && IdsOk(s.msgs, s.queue)
    && forall p :: 0 <= p < |s.queue| ==> QueuedOk(s, p, s.queue[p], s.msgs[s.queue[p]])
  }

  predicate OthersOk(s: State) {
    forall id :: 0 <= id < |s.msgs| && id !in s.queue ==> LeftOk(s, id, s.msgs[id])
  }

  predicate Core(s: State) { QueueOk(s) && OthersOk(s) && RunnerOk(s) && FinishingOk(s) }

  predicate Inv(s: State) { Core(s) && CompletedOk(s) }

  lemma RemoveKeeps(msgs: seq<Msg>, q: seq<nat>, id: nat)
    requires IdsOk(msgs, q)
    ensures IdsOk(msgs, Remove(q, id))
  {
    if q != [] && q[0] != id {
      RemoveKeeps(msgs, q[1..], id);
    }
  }

  /** In an increasing queue, removing takes out just that identifier. */
  lemma {:induction false} RemoveShape(q: seq<nat>, p: nat)
    requires Increasing(q) && p < |q|
    ensures Remove(q, q[p]) == q[..p] + q[p + 1..]
  {
    if p > 0 {
      var rest := q[1..];
      RemoveShape(rest, p - 1);
      assert rest[p - 1] == q[p] && q[0] != q[p];
      TakeDrop(q, p);
    }
  }

  lemma TakeDrop(q: seq<nat>, p: nat)
    requires 0 < p < |q|
    ensures q[..p] + q[p + 1..] == [q[0]] + (q[1..][..p - 1] + q[1..][p..])
  {
    assert q[..p] == [q[0]] + q[1..][..p - 1];
    assert q[1..][p..] == q[p + 1..];
  }

  lemma BusyShape(msgs: seq<Msg>, q: seq<nat>, n: nat)
    requires Increasing(q) && IdsOk(msgs, q) && 1 <= n <= |q|
    ensures forall p :: 0 <= p < |q| ==>
              MarkBusy(msgs, q[1..n])[q[p]] == if 1 <= p < n then msgs[q[p]].(stage := Busy) else msgs[q[p]]
    ensures forall id :: 0 <= id < |msgs| && id !in q ==> MarkBusy(msgs, q[1..n])[id] == msgs[id]
  {
    forall p | 0 <= p < |q|
      ensures q[p] in q[1..n] <==> 1 <= p < n
    {
      if 1 <= p < n { assert q[1..n][p - 1] == q[p]; }
    }
  }

  lemma FinishShape(msgs: seq<Msg>, q: seq<nat>, n: nat, failed: bool)
    requires Increasing(q) && IdsOk(msgs, q) && n <= |q|
    ensures forall p :: 0 <= p < |q| ==>
              FinishAll(msgs, q[..n], failed)[q[p]] == if p < n then Finish(msgs[q[p]], failed) else msgs[q[p]]
    ensures forall id :: 0 <= id < |msgs| && id !in q ==> FinishAll(msgs, q[..n], failed)[id] == msgs[id]
  {
    forall p | 0 <= p < |q|
      ensures q[p] in q[..n] <==> p < n
    {
      if p < n { assert q[..n][p] == q[p]; }
    }
  }

  // ---- every step keeps the invariant ----

  lemma CompletedSame(s: State, t: State)
    requires CompletedOk(s) && t.completed == s.completed && t.queue == s.queue && |t.msgs| == |s.msgs|
    requires forall id :: 0 <= id < |s.msgs| ==> (t.msgs[id].stage == Done <==> s.msgs[id].stage == Done)
    ensures CompletedOk(t)
  {
  }

  lemma PointCore(s: State, id: nat, m: Msg)
    requires Core(s) && id < |s.msgs|
    requires m.posted == s.msgs[id].posted && (m.stage == Done <==> s.msgs[id].stage == Done)
    requires forall p :: 0 <= p < |s.queue| && s.queue[p] == id ==> QueuedOk(s, p, id, m)
    requires id !in s.queue ==> LeftOk(s, id, m)
    requires s.msgs[id].pc == Releasing ==> m.pc == Releasing
    ensures Core(s.(msgs := s.msgs[id := m]))
  {
    var t := s.(msgs := s.msgs[id := m]);
    assert forall p :: 0 <= p < |t.queue| ==> QueuedOk(s, p, s.queue[p], s.msgs[s.queue[p]]);
    assert FinishingOk(t);
  }

  /** Changing one message in a way its place in the protocol allows. */
  lemma PointKeeps(s: State, id: nat, m: Msg)
    requires Inv(s) && id < |s.msgs|
    requires m.posted == s.msgs[id].posted && (m.stage == Done <==> s.msgs[id].stage == Done)
    requires forall p :: 0 <= p < |s.queue| && s.queue[p] == id ==> QueuedOk(s, p, id, m)
    requires id !in s.queue ==> LeftOk(s, id, m)
    requires s.msgs[id].pc == Releasing ==> m.pc == Releasing
    ensures Inv(s.(msgs := s.msgs[id := m]))
  {
    PointCore(s, id, m);
    CompletedSame(s, s.(msgs := s.msgs[id := m]));
  }

  lemma PcStepKeeps(s: State, e: Event)
    requires Inv(s) && Enabled(s, e)
    requires e.Wake? || e.CheckDone? || e.Drained?
    ensures Inv(Apply(s, e))
  {
    PointKeeps(s, e.id, Apply(s, e).msgs[e.id]);
  }

  lemma ParseKeeps(s: State, e: Event)
    requires Inv(s) && Enabled(s, e)
    requires e.ParseReply?
    ensures Inv(Apply(s, e))
  {
    PointKeeps(s, e.id, Apply(s, e).msgs[e.id]);
  }

  /** The lock is held and `runner` is about to select a batch. */
  predicate Startable(s: State, runner: Runner) {
    && s.queue != [] && IdsOk(s.msgs, s.queue)
    && s.batch.None? && !s.runqPending && !s.waitPending && s.bar != Active
    && OthersOk(s) && FinishingOk(s) && CompletedOk(s)
    && (forall p :: 1 <= p < |s.queue| ==> QueuedOk(s, p, s.queue[p], s.msgs[s.queue[p]]))
    && var m := s.msgs[s.queue[0]];
       && (m.stage == Queued || m.stage == Next)
       && if m.posted then runner == RunqWork && m.pc == NoThread
          else runner == Thread(s.queue[0]) && m.pc == Running
  }

  lemma StartKeeps(s: State, runner: Runner, n: nat)
    requires Startable(s, runner) && 1 <= n <= |s.queue|
    ensures Inv(SelectN(s, runner, n))
  {
    var t := SelectN(s, runner, n);
    BusyShape(s.msgs, s.queue, n);
    assert QueueOk(t) by {
      forall p | 0 <= p < |t.queue|
        ensures QueuedOk(t, p, t.queue[p], t.msgs[t.queue[p]])
      {
        if p > 0 { assert QueuedOk(s, p, s.queue[p], s.msgs[s.queue[p]]); }
      }
    }
    assert OthersOk(t);
    assert FinishingOk(t);
    CompletedFrame(s, t);
  }

  lemma TakeOverStartable(s: State, id: nat)
    requires Inv(s) && s.batch.None? && IsFirst(s, id)
    ensures !s.msgs[id].posted ==> Startable(SetPc(s, id, Running), Thread(id))
    ensures s.msgs[id].posted ==> Startable(s.(runqPending := false), RunqWork)
  {
    assert QueuedOk(s, 0, id, s.msgs[id]);
    var t := if s.msgs[id].posted then s.(runqPending := false) else SetPc(s, id, Running);
    CompletedFrame(s, t);
    assert forall p :: 1 <= p < |s.queue| ==> QueuedOk(s, p, s.queue[p], s.msgs[s.queue[p]]);
    assert OthersOk(t);
    assert FinishingOk(t);
  }

  /** A queue with new messages behind, or messages taken out. */
  lemma CompletedFrame(s: State, t: State)
    requires CompletedOk(s) && t.completed == s.completed && |s.msgs| <= |t.msgs|
    requires forall id :: 0 <= id < |s.msgs| ==> (t.msgs[id].stage == Done <==> s.msgs[id].stage == Done)
    requires forall id :: |s.msgs| <= id < |t.msgs| ==> t.msgs[id].stage != Done
    requires Increasing(t.queue)
    requires forall p :: 0 <= p < |t.queue| ==> t.queue[p] in s.queue || |s.msgs| <= t.queue[p]
    ensures CompletedOk(t)
  {
    forall id | 0 <= id < |t.msgs|
      ensures t.msgs[id].stage == Done <==> id in t.completed
    {
    }
    forall a, p | 0 <= a < |t.completed| && 0 <= p < |t.queue|
      ensures t.completed[a] < t.queue[p]
    {
      if t.queue[p] in s.queue {
        var r :| 0 <= r < |s.queue| && s.queue[r] == t.queue[p];
      }
    }
  }

  lemma EnqueueQueue(s: State, posted: bool, maxLen: nat)
    requires Inv(s)
    ensures var t := Enqueue(s, posted, maxLen);
            IdsOk(t.msgs, t.queue) &&
            forall p :: 0 <= p < |s.queue| ==> QueuedOk(t, p, t.queue[p], t.msgs[t.queue[p]])
  {
    assert forall p :: 0 <= p < |s.queue| ==> QueuedOk(s, p, s.queue[p], s.msgs[s.queue[p]]);
  }

  lemma EnqueueOthers(s: State, posted: bool, maxLen: nat)
    requires Inv(s)
    ensures var t := Enqueue(s, posted, maxLen);
            OthersOk(t) && FinishingOk(t) && CompletedOk(t)
  {
    var t := Enqueue(s, posted, maxLen);
    forall id | 0 <= id < |t.msgs| && id !in t.queue
      ensures LeftOk(t, id, t.msgs[id])
    {
      assert t.queue[|s.queue|] == |s.msgs|;
      assert id !in s.queue && LeftOk(s, id, s.msgs[id]);
    }
    CompletedFrame(s, t);
  }

  lemma CommunicateKeeps(s: State, maxLen: nat, critical: bool)
    requires Inv(s)
    ensures Inv(DoCommunicate(s, maxLen, critical))
  {
    if critical || !QueueFull(s) {
      EnqueueQueue(s, false, maxLen);
      EnqueueOthers(s, false, maxLen);
      var t := Enqueue(s, false, maxLen);
      if s.queue == [] {
        FirstStartable(s, maxLen);
        var u := SetPc(t, |s.msgs|, Running);
        StartKeeps(u, Thread(|s.msgs|), BatchLen(Space(u.mboxLen), Lens(u.msgs, u.queue)));
      } else {
        assert t.queue[0] == s.queue[0];
        assert QueueOk(t);
      }
    }
  }

  lemma FirstOthers(s: State, t: State, u: State, id: nat, maxLen: nat)
    requires Inv(s) && s.queue == [] && id == |s.msgs| && OthersOk(t) && FinishingOk(t)
    requires t == Enqueue(s, false, maxLen) && u == SetPc(t, id, Running)
    ensures OthersOk(u) && FinishingOk(u) && u.queue == [id]
  {
    assert u.queue == [id] && t.queue == [id];
    assert forall x :: 0 <= x < |t.msgs| && x !in t.queue ==> LeftOk(t, x, t.msgs[x]);
  }

  lemma FirstStartable(s: State, maxLen: nat)
    requires Inv(s) && s.queue == []
    ensures Startable(SetPc(Enqueue(s, false, maxLen), |s.msgs|, Running), Thread(|s.msgs|))
  {
    var t := Enqueue(s, false, maxLen);
    var u := SetPc(t, |s.msgs|, Running);
    EnqueueOthers(s, false, maxLen);
    FirstOthers(s, t, u, |s.msgs|, maxLen);
    CompletedFrame(s, u);
  }

  lemma RelockKeeps(s: State, id: nat)
    requires Inv(s) && Enabled(s, Relock(id))
    ensures Inv(DoRelock(s, id))
  {
    if IsFirst(s, id) {
      assert QueuedOk(s, 0, id, s.msgs[id]);
      TakeOverStartable(s, id);
      var u := SetPc(s, id, Running);
      StartKeeps(u, Thread(id), BatchLen(Space(u.mboxLen), Lens(u.msgs, u.queue)));
    } else if InProgress(s.msgs[id]) {
      PointKeeps(s, id, s.msgs[id].(pc := Draining));
    } else {
      UnlinkKeeps(s, id);
    }
  }

  /** A waiter that gives up is behind the active batch, and is not the next runner. */
  lemma GivesUpQueued(s: State, id: nat) returns (p: nat)
    requires Inv(s) && id < |s.msgs| && s.msgs[id].pc.Retrying?
    requires !IsFirst(s, id) && !InProgress(s.msgs[id])
    ensures 1 <= p < |s.queue| && s.queue[p] == id && BatchSize(s) <= p
    ensures s.msgs[id].stage == Queued && s.msgs[id].pc.to
  {
    assert id in s.queue;
    p :| 0 <= p < |s.queue| && s.queue[p] == id;
    assert QueuedOk(s, p, id, s.msgs[id]);
  }

  lemma UnlinkQueue(s: State, id: nat, p: nat)
    requires QueueOk(s) && RunnerOk(s) && Increasing(s.queue)
    requires 1 <= p < |s.queue| && s.queue[p] == id && BatchSize(s) <= p
    ensures var q := s.queue[..p] + s.queue[p + 1..];
            var t := SetPc(s, id, Gone(ETIMEDOUT)).(queue := q);
            QueueOk(t) && Increasing(q) && RunnerOk(t)
  {
    var t := SetPc(s, id, Gone(ETIMEDOUT)).(queue := s.queue[..p] + s.queue[p + 1..]);
    assert forall r :: 0 <= r < |t.queue| ==> t.queue[r] == s.queue[if r < p then r else r + 1];
    forall r | 0 <= r < |t.queue|
      ensures t.queue[r] < |t.msgs| && QueuedOk(t, r, t.queue[r], t.msgs[t.queue[r]])
    {
      var r' := if r < p then r else r + 1;
      assert QueuedOk(s, r', s.queue[r'], s.msgs[s.queue[r']]);
    }
  }

  lemma TakenOut(q: seq<nat>, p: nat, x: nat)
    requires p < |q| && x in q && x != q[p]
    ensures x in q[..p] + q[p + 1..]
  {
    var r :| 0 <= r < |q| && q[r] == x;
    assert (q[..p] + q[p + 1..])[if r < p then r else r - 1] == x;
  }

  lemma UnlinkOthers(s: State, id: nat, p: nat)
    requires OthersOk(s) && FinishingOk(s) && IdsOk(s.msgs, s.queue)
    requires 1 <= p < |s.queue| && s.queue[p] == id && s.msgs[id].stage == Queued
    ensures var t := SetPc(s, id, Gone(ETIMEDOUT)).(queue := s.queue[..p] + s.queue[p + 1..]);
            OthersOk(t) && FinishingOk(t)
  {
    var t := SetPc(s, id, Gone(ETIMEDOUT)).(queue := s.queue[..p] + s.queue[p + 1..]);
    forall x | 0 <= x < |t.msgs| && x !in t.queue ensures LeftOk(t, x, t.msgs[x]) {
      if x != id {
        if x in s.queue { TakenOut(s.queue, p, x); }
        assert LeftOk(s, x, s.msgs[x]);
      }
    }
  }

  lemma UnlinkKeeps(s: State, id: nat)
    requires Inv(s) && Enabled(s, Relock(id))
    requires !IsFirst(s, id) && !InProgress(s.msgs[id])
    ensures Inv(Unlink(s, id))
  {
    var p := GivesUpQueued(s, id);
    RemoveShape(s.queue, p);
    UnlinkQueue(s, id, p);
    UnlinkOthers(s, id, p);
    CompletedFrame(s, Unlink(s, id));
  }

  lemma BarQueue(s: State, e: Event)
    requires Inv(s) && Enabled(s, e)
    requires e.AcquireBar? || e.OtherLock? || e.OtherUnlock? || e.WaitStart?
    ensures QueueOk(Apply(s, e)) && RunnerOk(Apply(s, e))
  {
    var t := Apply(s, e);
    assert forall p :: 0 <= p < |t.queue| ==> QueuedOk(s, p, t.queue[p], t.msgs[t.queue[p]]);
  }

  lemma BarOthers(s: State, e: Event)
    requires Inv(s) && Enabled(s, e)
    requires e.AcquireBar? || e.OtherLock? || e.OtherUnlock? || e.WaitStart?
    ensures OthersOk(Apply(s, e)) && FinishingOk(Apply(s, e))
  {
    assert forall id :: 0 <= id < |s.msgs| && id !in s.queue ==> LeftOk(s, id, s.msgs[id]);
  }

  lemma BarKeeps(s: State, e: Event)
    requires Inv(s) && Enabled(s, e)
    requires e.AcquireBar? || e.OtherLock? || e.OtherUnlock? || e.WaitStart?
    ensures Inv(Apply(s, e))
  {
    BarQueue(s, e);
    BarOthers(s, e);
    CompletedSame(s, Apply(s, e));
  }

  lemma ReleaseQueue(s: State)
    requires Core(s) && s.bar.Finishing?
    ensures QueueOk(DoRelease(s)) && RunnerOk(DoRelease(s))
  {
    var t := DoRelease(s);
    assert forall p :: 0 <= p < |t.queue| ==> QueuedOk(s, p, t.queue[p], s.msgs[t.queue[p]]);
  }

  lemma ReleaseOthers(s: State)
    requires Core(s) && s.bar.Finishing?
    ensures OthersOk(DoRelease(s)) && FinishingOk(DoRelease(s))
  {
    assert forall id :: 0 <= id < |s.msgs| && id !in s.queue ==> LeftOk(s, id, s.msgs[id]);
  }

  lemma ReleaseKeeps(s: State)
    requires Inv(s) && s.bar.Finishing?
    ensures Inv(DoRelease(s))
  {
    ReleaseQueue(s);
    ReleaseOthers(s);
    CompletedSame(s, DoRelease(s));
  }

  lemma RunqKeeps(s: State)
    requires Inv(s) && Enabled(s, RunqStart)
    ensures Inv(DoRunq(s))
  {
    assert QueuedOk(s, 0, s.queue[0], s.msgs[s.queue[0]]);
    TakeOverStartable(s, s.queue[0]);
    var u := s.(runqPending := false);
    StartKeeps(u, RunqWork, BatchLen(Space(u.mboxLen), Lens(u.msgs, u.queue)));
  }

  lemma PostKeeps(s: State, maxLen: nat)
    requires Inv(s)
    ensures Inv(DoPost(s, maxLen))
  {
    if !QueueFull(s) {
      EnqueueQueue(s, true, maxLen);
      EnqueueOthers(s, true, maxLen);
      var t := Enqueue(s, true, maxLen);
      if s.queue != [] {
        assert t.queue[0] == s.queue[0];
        assert QueueOk(t);
      } else {
        PostFirstKeeps(s, maxLen);
      }
    }
  }

  lemma PostFirstOthers(s: State, maxLen: nat)
    requires Inv(s) && s.queue == []
    ensures OthersOk(DoPost(s, maxLen)) && FinishingOk(DoPost(s, maxLen))
  {
    EnqueueOthers(s, true, maxLen);
    var t, u := Enqueue(s, true, maxLen), DoPost(s, maxLen);
    assert u.queue == [|s.msgs|] && t.queue == [|s.msgs|];
    assert forall x :: 0 <= x < |t.msgs| && x !in t.queue ==> LeftOk(t, x, t.msgs[x]);
  }

  lemma PostFirstQueue(s: State, maxLen: nat)
    requires Core(s) && s.queue == []
    ensures QueueOk(DoPost(s, maxLen)) && RunnerOk(DoPost(s, maxLen)) && Increasing(DoPost(s, maxLen).queue)
  {
    var id, u := |s.msgs|, DoPost(s, maxLen);
    assert u.queue == [id];
    assert QueuedOk(u, 0, id, u.msgs[id]);
  }

  lemma PostFirstKeeps(s: State, maxLen: nat)
    requires Inv(s) && s.queue == []
    ensures Inv(DoPost(s, maxLen))
  {
    PostFirstOthers(s, maxLen);
    PostFirstQueue(s, maxLen);
    CompletedFrame(s, DoPost(s, maxLen));
  }

  /** The state just after the prefix has left the queue, before the next runner is marked. */
  function Dequeued(s: State, failed: bool): State
    requires Inv(s) && s.batch.Some?
  {
    var n := s.batch.value.size;
    var r := s.batch.value.runner;
    var t := s.(msgs := FinishAll(s.msgs, s.queue[..n], failed), queue := s.queue[n..],
                batch := None, bar := Finishing(s.batch.value.runner),
                completed := s.completed + s.queue[..n]);
    if r.Thread? && r.id < |t.msgs| then SetPc(t, r.id, Releasing) else t
  }

  lemma DequeuedMsgs(s: State, failed: bool)
    requires Inv(s) && Enabled(s, Complete(failed))
    ensures var n := s.batch.value.size; var t := Dequeued(s, failed);
            && |t.msgs| == |s.msgs|
            && (forall p :: n <= p < |s.queue| ==> t.msgs[s.queue[p]] == s.msgs[s.queue[p]])
            && (forall p :: 0 <= p < n ==>
                  t.msgs[s.queue[p]] == Finish(s.msgs[s.queue[p]], failed).(pc := t.msgs[s.queue[p]].pc))
            && (forall p :: 1 <= p < n ==> t.msgs[s.queue[p]].pc == s.msgs[s.queue[p]].pc)
            && t.msgs[s.queue[0]].pc == (if s.batch.value.runner.Thread? then Releasing else s.msgs[s.queue[0]].pc)
            && (forall id :: 0 <= id < |s.msgs| && id !in s.queue ==> t.msgs[id] == s.msgs[id])
  {
    assert QueuedOk(s, 0, s.queue[0], s.msgs[s.queue[0]]);
    FinishShape(s.msgs, s.queue, s.batch.value.size, failed);
  }

  lemma HeadMember(q: seq<nat>, n: nat, x: nat) returns (p: nat)
    requires n <= |q| && x in q && x !in q[n..]
    ensures p < n && q[p] == x
  {
    assert q == q[..n] + q[n..];
    p :| 0 <= p < n && q[..n][p] == x;
  }

  lemma DequeuedLeft(s: State, failed: bool, id: nat)
    requires Inv(s) && Enabled(s, Complete(failed)) && id < |s.msgs| && id !in s.queue[s.batch.value.size..]
    ensures var t := Dequeued(s, failed); |t.msgs| == |s.msgs| && LeftOk(t, id, t.msgs[id])
  {
    DequeuedMsgs(s, failed);
    assert QueuedOk(s, 0, s.queue[0], s.msgs[s.queue[0]]);
    if id in s.queue {
      var p := HeadMember(s.queue, s.batch.value.size, id);
      assert QueuedOk(s, p, id, s.msgs[id]);
    } else {
      assert LeftOk(s, id, s.msgs[id]);
    }
  }

  lemma DequeuedFinishing(s: State, failed: bool)
    requires Inv(s) && Enabled(s, Complete(failed))
    ensures FinishingOk(Dequeued(s, failed))
  {
    DequeuedMsgs(s, failed);
    assert QueuedOk(s, 0, s.queue[0], s.msgs[s.queue[0]]);
  }

  lemma DequeuedOthers(s: State, failed: bool)
    requires Inv(s) && Enabled(s, Complete(failed))
    ensures OthersOk(Dequeued(s, failed)) && FinishingOk(Dequeued(s, failed))
  {
    var t := Dequeued(s, failed);
    forall id | 0 <= id < |t.msgs| && id !in t.queue ensures LeftOk(t, id, t.msgs[id]) {
      DequeuedLeft(s, failed, id);
    }
    DequeuedFinishing(s, failed);
  }

  lemma OrderSplit(completed: seq<nat>, queue: seq<nat>, n: nat)
    requires Increasing(completed) && Increasing(queue) && n <= |queue|
    requires forall a, p :: 0 <= a < |completed| && 0 <= p < |queue| ==> completed[a] < queue[p]
    ensures Increasing(completed + queue[..n]) && Increasing(queue[n..])
    ensures forall a, p :: 0 <= a < |completed + queue[..n]| && 0 <= p < |queue[n..]| ==>
              (completed + queue[..n])[a] < queue[n..][p]
  {
  }

  lemma DequeuedCompleted(s: State, failed: bool)
    requires Inv(s) && Enabled(s, Complete(failed))
    ensures CompletedOk(Dequeued(s, failed))
  {
    var n, t := s.batch.value.size, Dequeued(s, failed);
    OrderSplit(s.completed, s.queue, n);
    assert IdsOk(t.msgs, t.completed);
    forall id | 0 <= id < |t.msgs|
      ensures t.msgs[id].stage == Done <==> id in t.completed
    {
      DequeuedDone(s, failed, id);
    }
  }

  lemma DequeuedDone(s: State, failed: bool, id: nat)
    requires Inv(s) && Enabled(s, Complete(failed)) && id < |s.msgs|
    ensures var t := Dequeued(s, failed);
            |t.msgs| == |s.msgs| && (t.msgs[id].stage == Done <==> id in t.completed)
  {
    var n, t := s.batch.value.size, Dequeued(s, failed);
    DequeuedMsgs(s, failed);
    if id in s.queue {
      var p :| 0 <= p < |s.queue| && s.queue[p] == id;
      assert QueuedOk(s, p, id, s.msgs[id]);
      assert id !in s.completed;
      DequeuedMember(s.completed, s.queue, n, p);
    } else {
      assert id !in s.queue[..n];
    }
  }

  lemma DequeuedMember(completed: seq<nat>, queue: seq<nat>, n: nat, p: nat)
    requires Increasing(queue) && n <= |queue| && p < |queue| && queue[p] !in completed
    ensures queue[p] in completed + queue[..n] <==> p < n
  {
    if p < n { assert (completed + queue[..n])[|completed| + p] == queue[p]; }
  }

  lemma WaitsAfterBatch(s: State, p: nat)
    requires Inv(s) && s.batch.Some? && s.batch.value.size <= p < |s.queue|
    ensures s.queue[p] < |s.msgs| && WaitsBehind(s.msgs[s.queue[p]])
  {
    assert QueuedOk(s, p, s.queue[p], s.msgs[s.queue[p]]);
  }

  lemma DequeuedWaits(s: State, failed: bool, p: nat)
    requires Inv(s) && Enabled(s, Complete(failed)) && p < |Dequeued(s, failed).queue|
    ensures var t := Dequeued(s, failed); t.queue[p] < |t.msgs| && WaitsBehind(t.msgs[t.queue[p]])
  {
    DequeuedMsgs(s, failed);
    WaitsAfterBatch(s, s.batch.value.size + p);
  }

  lemma DequeuedTail(s: State, failed: bool)
    requires Inv(s) && Enabled(s, Complete(failed))
    ensures var t := Dequeued(s, failed);
            IdsOk(t.msgs, t.queue) &&
            forall p :: 0 <= p < |t.queue| ==> WaitsBehind(t.msgs[t.queue[p]])
  {
    var t := Dequeued(s, failed);
    forall p | 0 <= p < |t.queue|
      ensures t.queue[p] < |t.msgs| && WaitsBehind(t.msgs[t.queue[p]])
    {
      DequeuedWaits(s, failed, p);
    }
  }

  lemma CompleteKeeps(s: State, failed: bool)
    requires Inv(s) && Enabled(s, Complete(failed))
    ensures Inv(DoComplete(s, failed))
  {
    DequeuedTail(s, failed);
    DequeuedOthers(s, failed);
    DequeuedCompleted(s, failed);
    MarkNextKeeps(Dequeued(s, failed));
  }

  predicate WaitsBehind(m: Msg) {
    && m.stage == Queued
    && (m.posted ==> m.pc == NoThread)
    && (!m.posted ==> WaitingPc(m.pc) && PcOk(m))
  }

  /** No batch is active and every queued message is Queued: marking the head restores the invariant. */
  lemma MarkNextKeeps(t: State)
    requires IdsOk(t.msgs, t.queue) && OthersOk(t) && FinishingOk(t) && CompletedOk(t)
    requires t.batch.None? && !t.runqPending && !t.waitPending && t.bar != Active
    requires forall p :: 0 <= p < |t.queue| ==> WaitsBehind(t.msgs[t.queue[p]])
    ensures Inv(MarkNext(t))
  {
    var u := MarkNext(t);
    assert QueueOk(u);
    assert OthersOk(u) by {
      assert forall id :: 0 <= id < |t.msgs| && id !in t.queue ==> LeftOk(t, id, t.msgs[id]);
    }
    CompletedFrame(t, u);
  }

  lemma StepKeeps(s: State, e: Event)
    requires Inv(s) && Enabled(s, e)
    ensures Inv(Apply(s, e))
  {
    match e
    case Communicate(maxLen, critical) => CommunicateKeeps(s, maxLen, critical);
    case Wake(_, _) => PcStepKeeps(s, e);
    case CheckDone(_) => PcStepKeeps(s, e);
    case Relock(id) => RelockKeeps(s, id);
    case Drained(_) => PcStepKeeps(s, e);
    case AcquireBar => BarKeeps(s, e);
    case ParseReply(_, _) => ParseKeeps(s, e);
    case Complete(failed) => CompleteKeeps(s, failed);
    case ReleaseBar => ReleaseKeeps(s);
    case RunqStart => RunqKeeps(s);
    case Post(maxLen) => PostKeeps(s, maxLen);
    case WaitStart => BarKeeps(s, e);
    case OtherLock => BarKeeps(s, e);
    case OtherUnlock => BarKeeps(s, e);
  }

  // ---- runs ----

  /** `es` is a sequence of steps that can happen, in this order, from `s`. */
  ghost predicate Legal(s: State, es: seq<Event>)
    requires Inv(s)
    decreases |es|
  {
    es == [] || (Enabled(s, es[0]) && (StepKeeps(s, es[0]); Legal(Apply(s, es[0]), es[1..])))
  }

  /** Every run ends in a state that satisfies the invariant. */
  ghost function Exec(s: State, es: seq<Event>): (r: State)
    requires Inv(s) && Legal(s, es)
    ensures Inv(r)
    decreases |es|
  {
    if es == [] then s else StepKeeps(s, es[0]); Exec(Apply(s, es[0]), es[1..])
  }

  lemma InitInv(mboxLen: nat)
    ensures Inv(Init(mboxLen))
  {
  }

  ghost predicate Reachable(s: State) {
    exists mboxLen: nat, es :: InitInv(mboxLen); Legal(Init(mboxLen), es) && s == Exec(Init(mboxLen), es)
  }

  lemma ReachableInv(s: State)
    requires Reachable(s)
    ensures Inv(s)
  {
  }

  // ---- batch selection ----

  function Sum(lens: seq<nat>): nat {
    if lens == [] then 0 else Sum(lens[..|lens| - 1]) + 4 + lens[|lens| - 1]
  }

  lemma {:induction false} ExtendFits(space: int, lens: seq<nat>, n: nat)
    requires n <= |lens| && 0 <= space
    ensures var r := Extend(space, lens, n);
            && Sum(lens[..r]) - Sum(lens[..n]) <= space
            && (r < |lens| && r < BATCH_LIMIT ==> space < Sum(lens[..r + 1]) - Sum(lens[..n]))
            && (n <= BATCH_LIMIT ==> r <= BATCH_LIMIT)
    decreases |lens| - n
  {
    if n < |lens| {
      assert lens[..n + 1][..n] == lens[..n];
      if n < BATCH_LIMIT && space - (4 + lens[n]) >= 0 {
        ExtendFits(space - (4 + lens[n]), lens, n + 1);
      }
    }
  }

  /** When the first message fits, the batch is the longest prefix of at most 64 messages
      whose headers and reserved lengths fit the mailbox. */
  lemma BatchIsLongestFit(space: int, lens: seq<nat>)
    requires lens != [] && 4 + lens[0] <= space
    ensures var r := BatchLen(space, lens);
            && r <= BATCH_LIMIT
            && Sum(lens[..r]) <= space
            && (r == |lens| || r == BATCH_LIMIT || space < Sum(lens[..r + 1]))
  {
    assert lens[..1][..0] == [];
    ExtendFits(space - (4 + lens[0]), lens, 1);
  }
}

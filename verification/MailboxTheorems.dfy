/**
 What the CCM mailbox protocol guarantees in every interleaving (src/ccm_mbox.c).
 */
module MailboxTheorems {
  import opened Wrappers
  import opened MailboxProtocol

  // ---- ownership of the head ----

  datatype Owner = RunningBatch(runner: Runner) | NextWaiter(id: nat) | PendingRunq | PendingWait

  /** Everyone entitled to touch the head of the queue next. */
  function Owners(s: State): set<Owner>
    requires IdsOk(s.msgs, s.queue)
  {
    (if s.batch.Some? && s.batch.value.phase != Posted then {RunningBatch(s.batch.value.runner)} else {})
    + Waiters(s)
    + (if s.runqPending then {PendingRunq} else {})
    + (if s.waitPending then {PendingWait} else {})
  }

  function Waiters(s: State): set<Owner>
    requires IdsOk(s.msgs, s.queue)
  {
    set id: nat | id in s.queue && 0 <= id < |s.msgs| && s.msgs[id].stage == Next && !s.msgs[id].posted
                  && s.msgs[id].pc != Running :: NextWaiter(id)
  }

  lemma WaiterIsHead(s: State)
    requires Core(s)
    ensures forall id :: id in s.queue && s.msgs[id].stage == Next ==> id == s.queue[0]
  {
    forall id | id in s.queue && s.msgs[id].stage == Next
      ensures id == s.queue[0]
    {
      var p :| 0 <= p < |s.queue| && s.queue[p] == id;
      assert QueuedOk(s, p, id, s.msgs[id]);
    }
  }

  lemma WaitersAre(s: State)
    requires Core(s)
    ensures Waiters(s) == if s.queue != [] && s.batch.None? && !s.msgs[s.queue[0]].posted
                          then {NextWaiter(s.queue[0])} else {}
  {
    WaiterIsHead(s);
    if s.queue != [] { assert QueuedOk(s, 0, s.queue[0], s.msgs[s.queue[0]]); }
  }

  /** A non-empty queue has exactly one owner of its head, an empty one has none. */
  lemma ExactlyOneOwner(s: State)
    requires Reachable(s)
    ensures s.queue == [] ==> Owners(s) == {}
    ensures s.queue != [] ==> exists o :: Owners(s) == {o} && OwnsHead(s, o)
  {
    ReachableInv(s);
    WaitersAre(s);
    if s.queue != [] {
      var h := s.queue[0];
      assert QueuedOk(s, 0, h, s.msgs[h]);
      var o := if s.batch.Some?
               then (if s.batch.value.phase == Posted then PendingWait else RunningBatch(s.batch.value.runner))
               else if s.msgs[h].posted then PendingRunq else NextWaiter(h);
      assert Owners(s) == {o} && OwnsHead(s, o);
    }
  }

  /** The owner fits the message at the head. */
  predicate OwnsHead(s: State, o: Owner)
    requires s.queue != [] && IdsOk(s.msgs, s.queue)
  {
    var h := s.queue[0];
    match o
    case RunningBatch(r) => if s.msgs[h].posted then r == RunqWork || r == WaitWork else r == Thread(h)
    case NextWaiter(id) => id == h && !s.msgs[h].posted
    case PendingRunq => s.msgs[h].posted && s.msgs[h].stage == Next
    case PendingWait => s.msgs[h].posted
  }

  // ---- the three warnings, and what a batch owns ----

  predicate WarnFires(s: State, e: Event)
    requires IdsOk(s.msgs, s.queue)
  {
    match e
    case Relock(id) => id < |s.msgs| && s.msgs[id].pc.Retrying? && !IsFirst(s, id) && !s.msgs[id].pc.to
    case RunqStart => RunqUnfit(s)
    case WaitStart => WaitUnfit(s)
    case _ => false
  }

  lemma WarningsUnreachable(s: State, e: Event)
    requires Reachable(s)
    ensures Inv(s)
    ensures Enabled(s, e) ==> !WarnFires(s, e)
  {
    ReachableInv(s);
  }

  /** The active batch owns exactly the messages in progress: no other message is Busy or has a
      reply, and every member behind the head is in progress. */
  lemma BatchOwnsInProgress(s: State, id: nat)
    requires Reachable(s) && Inv(s) && id < |s.msgs|
    ensures s.msgs[id].stage == Busy ==> id in s.queue[..BatchSize(s)] && id != s.queue[0]
    ensures s.msgs[id].stage == ReplyFound ==> id in s.queue[..BatchSize(s)]
    ensures forall p :: 1 <= p < BatchSize(s) && s.queue[p] == id ==>
              s.msgs[id].stage == Busy || s.msgs[id].stage == ReplyFound
  {
    if id in s.queue {
      var p :| 0 <= p < |s.queue| && s.queue[p] == id;
      assert QueuedOk(s, p, id, s.msgs[id]);
      if p < BatchSize(s) { assert s.queue[..BatchSize(s)][p] == id; }
    } else {
      assert LeftOk(s, id, s.msgs[id]);
    }
  }

  /** A message in progress stays so until it is done, and only a completion makes it Done. */
  lemma ProgressNotLost(s: State, e: Event, id: nat)
    requires Inv(s) && Enabled(s, e) && id < |s.msgs| && InProgress(s.msgs[id]) && id in s.queue
    ensures id < |Apply(s, e).msgs| && Apply(s, e).msgs[id].stage != Queued
    ensures !e.Complete? ==> Apply(s, e).completed == s.completed
  {
    match e
    case Relock(x) =>
      if !IsFirst(s, x) && !InProgress(s.msgs[x]) { GivingUpQueued(s, x); }
    case Complete(failed) => CompletedMember(s, failed, id);
    case _ =>
  }

  lemma GivingUpQueued(s: State, id: nat)
    requires Inv(s) && Enabled(s, Relock(id)) && !IsFirst(s, id) && !InProgress(s.msgs[id])
    ensures s.msgs[id].stage == Queued
  {
    var _ := GivesUpQueued(s, id);
  }

  lemma CompletedMember(s: State, failed: bool, id: nat)
    requires Inv(s) && Enabled(s, Complete(failed)) && id in s.queue && InProgress(s.msgs[id])
    ensures id < |DoComplete(s, failed).msgs| && DoComplete(s, failed).msgs[id].stage == Done
  {
    var q :| 0 <= q < |s.queue| && s.queue[q] == id;
    assert QueuedOk(s, q, id, s.msgs[id]);
    DequeuedMsgs(s, failed);
    var t := Dequeued(s, failed);
    DequeuedTail(s, failed);
    assert t.msgs[id].stage == Done;
  }

  /** No step takes a message in progress out of the queue, except the completion that makes it Done. */
  lemma BusyNeverUnlinked(s: State, e: Event, id: nat)
    requires Reachable(s) && Inv(s) && Enabled(s, e)
    requires id < |s.msgs| && id in s.queue && InProgress(s.msgs[id])
    ensures var t := Apply(s, e);
            id < |t.msgs| && (id in t.queue || (e.Complete? && t.msgs[id].stage == Done))
  {
    var q :| 0 <= q < |s.queue| && s.queue[q] == id;
    assert QueuedOk(s, q, id, s.msgs[id]);
    ProgressNotLost(s, e, id);
    StepKeeps(s, e);
    var t := Apply(s, e);
    if id !in t.queue { assert LeftOk(t, id, t.msgs[id]); }
  }

  /** A waiter that gives up never holds the right to run: the hand-over inside
      unlink_unlock() is not needed, because a first message runs instead of giving up. */
  lemma GivingUpNeverHandsOver(s: State, id: nat)
    requires Reachable(s) && Inv(s) && Enabled(s, Relock(id)) && !IsFirst(s, id)
    ensures s.msgs[id].stage != Next
    ensures !InProgress(s.msgs[id]) ==>
              Apply(s, Relock(id)) == SetPc(s, id, Gone(ETIMEDOUT)).(queue := Remove(s.queue, id))
  {
    if !InProgress(s.msgs[id]) {
      var _ := GivesUpQueued(s, id);
    }
  }

  /** Messages complete at most once and in the order in which they were enqueued. */
  lemma CompletesInOrder(s: State)
    requires Reachable(s)
    ensures Increasing(s.completed + s.queue)
    ensures forall id :: 0 <= id < |s.msgs| ==> (s.msgs[id].stage == Done <==> id in s.completed)
  {
    ReachableInv(s);
  }

  /** Only Communicate and Post add a message. */
  lemma SameMessages(s: State, e: Event)
    requires Inv(s) && Enabled(s, e) && !e.Communicate? && !e.Post?
    ensures |Apply(s, e).msgs| == |s.msgs|
  {
    if e.Complete? { DequeuedMsgs(s, e.failed); }
  }

  /** A request is refused exactly if 1024 or more are queued and it is posted or not critical; otherwise it is added at
      the end of the queue. */
  lemma RefusedExactly(s: State, e: Event)
    requires Inv(s) && (e.Communicate? || e.Post?)
    ensures var t := Apply(s, e);
            if |s.queue| >= 1024 && (e.Post? || !e.critical) then t == s
            else t.queue == s.queue + [|s.msgs|] && |t.msgs| == |s.msgs| + 1
  {
  }

  /** A message that is posted to an empty queue is handed to the firmware at once if the mailbox is not in use, and
      scheduled to be run otherwise. */
  lemma PostExactly(s: State, maxLen: nat)
    requires Inv(s) && s.queue == []
    ensures var t := Apply(s, Post(maxLen));
            if s.bar == Free then t.batch == Some(Batch(WaitWork, 1, Posted)) && t.bar == Active && t.waitPending
            else t.batch == None && t.bar == s.bar && t.runqPending && t.msgs[|s.msgs|].stage == Next
  {
  }

  // ---- the queue can always be drained ----

  /** The next step of the owner of the head. */
  function OwnerStep(s: State): Event
    requires Inv(s) && s.queue != []
  {
    var h := s.queue[0];
    match s.batch
    case None =>
      if s.msgs[h].posted then RunqStart
      else match s.msgs[h].pc {
        case Sleeping => Wake(h, false)
        case Woken(_) => CheckDone(h)
        case _ => Relock(h)
      }
    case Some(b) =>
      match b.phase
      case Posted => WaitStart
      case Submitted => Complete(false)
      case Selected =>
        match s.bar {
          case Free => AcquireBar
          case Finishing(_) => ReleaseBar
          case _ => OtherUnlock
        }
  }

  /** Distance of the owner from completing its batch. */
  function Rank(s: State): nat
    requires Inv(s) && s.queue != []
  {
    match s.batch
    case None =>
      (match s.msgs[s.queue[0]].pc
       case Sleeping => 13
       case Woken(_) => 12
       case _ => 11)
    case Some(b) =>
      match b.phase
      case Selected => if s.bar == Free then 5 else 6
      case Posted => 4
      case Submitted => 3
  }

  lemma OwnerStepAdvances(s: State)
    requires Inv(s) && s.queue != []
    ensures Enabled(s, OwnerStep(s)) && Inv(Apply(s, OwnerStep(s)))
    ensures var t := Apply(s, OwnerStep(s));
            || |t.queue| < |s.queue|
            || (t.queue == s.queue && Rank(t) < Rank(s))
  {
    var h := s.queue[0];
    assert QueuedOk(s, 0, h, s.msgs[h]);
    assert Enabled(s, OwnerStep(s));
    StepKeeps(s, OwnerStep(s));
  }

  predicate Arrival(e: Event) {
    e.Communicate? || e.Post? || e.OtherLock? || (e.Wake? && e.to)
  }

  lemma FirstStep(s: State, e: Event, es: seq<Event>)
    requires Inv(s) && Enabled(s, e) && Inv(Apply(s, e)) && Legal(Apply(s, e), es)
    ensures Legal(s, [e] + es) && Exec(s, [e] + es) == Exec(Apply(s, e), es)
  {
    assert ([e] + es)[1..] == es;
  }

  /** No deadlock and no lost hand-over: from every reachable state some sequence of steps without
      new requests and without timeouts empties the queue. */
  lemma CanDrain(s: State) returns (es: seq<Event>)
    requires Inv(s)
    ensures Legal(s, es) && Exec(s, es).queue == []
    ensures forall e :: e in es ==> !Arrival(e)
    decreases |s.queue|, if s.queue == [] then 0 else Rank(s)
  {
    if s.queue == [] {
      es := [];
    } else {
      OwnerStepAdvances(s);
      var rest := CanDrain(Apply(s, OwnerStep(s)));
      es := [OwnerStep(s)] + rest;
      FirstStep(s, OwnerStep(s), rest);
    }
  }
}

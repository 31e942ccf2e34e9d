/**
 The size of a CCM mailbox batch in every interleaving (src/ccm_mbox.c): the active batch fits the mailbox, and is as
 long as it can be when it is selected.
 */
module MailboxFit {
  import opened Wrappers
  import opened MailboxProtocol
  import opened MailboxTheorems

  /** The bytes that these messages take: a TLV header each, and the longer of request and reply. */
  function Room(msgs: seq<Msg>, ids: seq<nat>): nat
    requires IdsOk(msgs, ids)
  {
    if ids == [] then 0 else Room(msgs, ids[..|ids| - 1]) + 4 + msgs[ids[|ids| - 1]].maxLen
  }

  /** They fit the mailbox, behind the command header and before the End TLV. */
  predicate Fits(s: State, ids: seq<nat>)
    requires IdsOk(s.msgs, ids)
  {
    8 + Room(s.msgs, ids) + 4 <= s.mboxLen
  }

  predicate Sized(s: State) {
    IdsOk(s.msgs, s.queue) && (s.batch.Some? ==> 1 <= s.batch.value.size <= |s.queue|)
  }

  /** More than one message only if they fit. */
  predicate BatchFits(s: State)
    requires Sized(s)
  {
    s.batch.Some? ==>
      var n := s.batch.value.size; 1 <= n <= BATCH_LIMIT && (1 < n ==> Fits(s, s.queue[..n]))
  }

  /** All there are, the most there may be, or the next one does not fit. */
  predicate Longest(s: State)
    requires Sized(s) && s.batch.Some?
  {
    var n := s.batch.value.size;
    n == |s.queue| || n == BATCH_LIMIT || !Fits(s, s.queue[..n + 1])
  }

  lemma {:induction false} LensAt(msgs: seq<Msg>, ids: seq<nat>, p: nat)
    requires IdsOk(msgs, ids) && p < |ids|
    ensures Lens(msgs, ids)[p] == msgs[ids[p]].maxLen
    decreases p
  {
    if p > 0 { LensAt(msgs, ids[1..], p - 1); }
  }

  lemma {:induction false} RoomIs(msgs: seq<Msg>, ids: seq<nat>, n: nat)
    requires IdsOk(msgs, ids) && n <= |ids|
    ensures Room(msgs, ids[..n]) == Sum(Lens(msgs, ids)[..n])
  {
    if n > 0 {
      RoomIs(msgs, ids, n - 1);
      LensAt(msgs, ids, n - 1);
      assert ids[..n][..n - 1] == ids[..n - 1];
      assert Lens(msgs, ids)[..n][..n - 1] == Lens(msgs, ids)[..n - 1];
    }
  }

  lemma {:induction false} RoomSame(a: seq<Msg>, b: seq<Msg>, ids: seq<nat>)
    requires IdsOk(a, ids) && IdsOk(b, ids) && forall p :: 0 <= p < |ids| ==> b[ids[p]].maxLen == a[ids[p]].maxLen
    ensures Room(a, ids) == Room(b, ids)
  {
    if ids != [] { RoomSame(a, b, ids[..|ids| - 1]); }
  }

  /** How long a selected batch is, in bytes. */
  lemma SelectedLength(msgs: seq<Msg>, queue: seq<nat>, mboxLen: nat)
    requires queue != [] && IdsOk(msgs, queue)
    ensures var n := BatchLen(Space(mboxLen), Lens(msgs, queue));
            n <= BATCH_LIMIT && (1 < n ==> 12 + Room(msgs, queue[..n]) <= mboxLen)
            && (n == |queue| || n == BATCH_LIMIT || mboxLen < 12 + Room(msgs, queue[..n + 1]))
  {
    var lens := Lens(msgs, queue);
    var n := BatchLen(Space(mboxLen), lens);
    RoomIs(msgs, queue, n);
    if n < |queue| { RoomIs(msgs, queue, n + 1); }
    if 4 + lens[0] <= Space(mboxLen) {
      BatchIsLongestFit(Space(mboxLen), lens);
    } else if 1 < |queue| {
      RoomIs(msgs, queue, 1);
      assert queue[..2][..1] == queue[..1] && queue[..1][..0] == [];
    }
  }

  /** The lengths of messages stay. */
  predicate SameLengths(a: seq<Msg>, b: seq<Msg>) {
    |a| <= |b| && forall id :: 0 <= id < |a| ==> b[id].maxLen == a[id].maxLen
  }

  lemma BusyLengths(msgs: seq<Msg>, ids: seq<nat>)
    ensures |MarkBusy(msgs, ids)| == |msgs| && SameLengths(msgs, MarkBusy(msgs, ids))
  {
  }

  lemma SelectNFits(u: State, t: State, n: nat)
    requires u.queue != [] && IdsOk(u.msgs, u.queue) && n == BatchLen(Space(u.mboxLen), Lens(u.msgs, u.queue))
    requires t.mboxLen == u.mboxLen && t.queue == u.queue && t.batch.Some? && t.batch.value.size == n
    requires SameLengths(u.msgs, t.msgs)
    ensures Sized(t) && BatchFits(t) && Longest(t)
  {
    SelectedLength(u.msgs, u.queue, u.mboxLen);
    RoomSame(u.msgs, t.msgs, u.queue[..n]);
    if n < |u.queue| { RoomSame(u.msgs, t.msgs, u.queue[..n + 1]); }
  }

  lemma SelectFits(u: State, t: State, runner: Runner)
    requires u.queue != [] && IdsOk(u.msgs, u.queue) && t == Select(u, runner)
    ensures Sized(t) && BatchFits(t) && Longest(t) && SameLengths(u.msgs, t.msgs)
  {
    BusyLengths(u.msgs, u.queue[1..t.batch.value.size]);
    SelectNFits(u, t, t.batch.value.size);
  }

  /** The batch is the same, or there is none. */
  lemma StaysFits(s: State, t: State)
    requires Sized(s) && Sized(t) && BatchFits(s) && t.mboxLen == s.mboxLen && SameLengths(s.msgs, t.msgs)
    requires t.batch.Some? ==> s.batch.Some? && t.batch.value.size == s.batch.value.size
    requires t.batch.Some? ==> t.queue[..t.batch.value.size] == s.queue[..t.batch.value.size]
    ensures BatchFits(t)
  {
    if t.batch.Some? { RoomSame(s.msgs, t.msgs, t.queue[..t.batch.value.size]); }
  }

  /** A step from s to t that keeps a batch that fits, or selects the longest. */
  predicate GoodStep(s: State, t: State) {
    Sized(t) && BatchFits(t) && SameLengths(s.msgs, t.msgs) && (s.batch.None? && t.batch.Some? ==> Longest(t))
  }

  lemma CommunicateFits(s: State, maxLen: nat, critical: bool)
    requires Sized(s) && BatchFits(s) && (s.queue == [] ==> s.batch.None?)
    ensures GoodStep(s, DoCommunicate(s, maxLen, critical))
  {
    var t := Enqueue(s, false, maxLen);
    var u := SetPc(t, |s.msgs|, Running);
    if s.queue == [] {
      SelectFits(u, Select(u, Thread(|s.msgs|)), Thread(|s.msgs|));
    } else {
      StaysFits(s, t);
    }
  }

  lemma PostFits(s: State, maxLen: nat)
    requires Sized(s) && BatchFits(s) && (s.queue == [] ==> s.batch.None?)
    ensures GoodStep(s, DoPost(s, maxLen))
  {
    var t := Enqueue(s, true, maxLen);
    if s.queue != [] { StaysFits(s, t); }
  }

  lemma RemoveBehind(s: State, id: nat, p: nat)
    requires Sized(s) && BatchFits(s) && Increasing(s.queue) && id < |s.msgs| && p < |s.queue| && s.queue[p] == id
    requires BatchSize(s) <= p
    ensures GoodStep(s, SetPc(s, id, Gone(ETIMEDOUT)).(queue := Remove(s.queue, id)))
  {
    var t := SetPc(s, id, Gone(ETIMEDOUT)).(queue := Remove(s.queue, id));
    RemoveKeeps(s.msgs, s.queue, id);
    RemoveShape(s.queue, p);
    StaysFits(s, t);
  }

  lemma RelockFits(s: State, id: nat)
    requires Inv(s) && Enabled(s, Relock(id)) && BatchFits(s)
    ensures GoodStep(s, Apply(s, Relock(id)))
  {
    var u := SetPc(s, id, Running);
    if IsFirst(s, id) {
      SelectFits(u, Select(u, Thread(id)), Thread(id));
    } else if InProgress(s.msgs[id]) {
      StaysFits(s, SetPc(s, id, Draining));
    } else {
      var p := GivesUpQueued(s, id);
      RemoveBehind(s, id, p);
    }
  }

  lemma CompleteFits(s: State, failed: bool)
    requires Inv(s) && Enabled(s, Complete(failed))
    ensures GoodStep(s, DoComplete(s, failed))
  {
    DequeuedTail(s, failed);
    LengthsDequeued(s, failed);
  }

  lemma LengthsDequeued(s: State, failed: bool)
    requires Inv(s) && Enabled(s, Complete(failed))
    ensures SameLengths(s.msgs, Dequeued(s, failed).msgs)
  {
  }

  lemma RunqFits(s: State)
    requires Inv(s) && Enabled(s, RunqStart)
    ensures GoodStep(s, Apply(s, RunqStart))
  {
    var t := s.(runqPending := false);
    assert QueuedOk(s, 0, s.queue[0], s.msgs[s.queue[0]]);
    SelectFits(t, Select(t, RunqWork), RunqWork);
  }

  lemma OtherFits(s: State, e: Event)
    requires Inv(s) && Enabled(s, e) && BatchFits(s)
    requires !e.Communicate? && !e.Post? && !e.Relock? && !e.Complete? && !e.RunqStart?
    ensures GoodStep(s, Apply(s, e))
  {
    StaysFits(s, Apply(s, e));
  }

  lemma StepFits(s: State, e: Event)
    requires Inv(s) && Enabled(s, e) && BatchFits(s)
    ensures GoodStep(s, Apply(s, e))
  {
    match e
    case Communicate(maxLen, critical) => CommunicateFits(s, maxLen, critical);
    case Post(maxLen) => PostFits(s, maxLen);
    case Relock(id) => RelockFits(s, id);
    case Complete(failed) => CompleteFits(s, failed);
    case RunqStart => RunqFits(s);
    case _ => OtherFits(s, e);
  }

  lemma {:induction false} RunFits(s: State, es: seq<Event>)
    requires Inv(s) && Legal(s, es) && BatchFits(s)
    ensures BatchFits(Exec(s, es)) && SameLengths(s.msgs, Exec(s, es).msgs)
    decreases |es|
  {
    if es != [] {
      StepFits(s, es[0]);
      StepKeeps(s, es[0]);
      RunFits(Apply(s, es[0]), es[1..]);
    }
  }

  /** In every run a batch of more than one message fits the mailbox, and has at most 64 messages. */
  lemma ActiveBatchFits(s: State)
    requires Reachable(s)
    ensures Inv(s) && BatchFits(s)
  {
    var mboxLen: nat, es :| Inv(Init(mboxLen)) && Legal(Init(mboxLen), es) && s == Exec(Init(mboxLen), es);
    RunFits(Init(mboxLen), es);
  }

  /** In every run a batch is as long as it can be when it is selected. */
  lemma SelectedIsLongest(s: State, e: Event)
    requires Reachable(s) && Inv(s) && Enabled(s, e) && s.batch.None?
    ensures Inv(Apply(s, e)) && (Apply(s, e).batch.Some? ==> Longest(Apply(s, e)))
  {
    ActiveBatchFits(s);
    StepFits(s, e);
    StepKeeps(s, e);
  }

  lemma NewLength(s: State, e: Event)
    requires Inv(s) && Enabled(s, e) && (e.Communicate? || e.Post?) && |Apply(s, e).msgs| > |s.msgs|
    ensures Apply(s, e).msgs[|s.msgs|].maxLen == e.maxLen
  {
    if e.Communicate? && s.queue == [] {
      var u := SetPc(Enqueue(s, false, e.maxLen), |s.msgs|, Running);
      SelectFits(u, Select(u, Thread(|s.msgs|)), Thread(|s.msgs|));
    }
  }

  /** A message keeps the length that it was enqueued with. */
  lemma EnqueuedLength(s: State, e: Event, t: State, es: seq<Event>)
    requires Inv(s) && Enabled(s, e) && (e.Communicate? || e.Post?) && BatchFits(s)
    requires t == Apply(s, e) && Inv(t) && Legal(t, es) && |t.msgs| > |s.msgs|
    ensures |s.msgs| < |Exec(t, es).msgs| && Exec(t, es).msgs[|s.msgs|].maxLen == e.maxLen
  {
    StepFits(s, e);
    RunFits(t, es);
    NewLength(s, e);
  }
}

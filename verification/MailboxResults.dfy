/**
 What callers of the CCM mailbox get back in every interleaving (src/ccm_mbox.c): 0, -ENOENT or -EIO by the
 replies that were found for their message and the end of its batch, or -ETIMEDOUT.
 */
module MailboxResults {
  import opened Wrappers
  import opened MailboxProtocol
  import opened MailboxTheorems

  /** The result of a message in a batch that was answered, or failed as a whole, by the replies found for it. */
  function Verdict(failed: bool, good: bool, bad: bool): int {
    if failed then EIO else if !good then ENOENT else if bad then EIO else 0
  }

  // ---- what single steps do to a message ----

  /** The message is done and stays so, or becomes so, or neither its error nor its reply changes. */
  predicate Kept(m: Msg, m': Msg) {
    (m.stage == Done ==> m'.stage == Done && m'.err == m.err)
    && (m'.stage != Done ==> m'.err == m.err && (m'.stage == ReplyFound <==> m.stage == ReplyFound))
  }

  /** Some completion of a batch with the message in it. */
  predicate Ends(s: State, e: Event, id: nat) {
    e.Complete? && s.batch.Some? && s.batch.value.size <= |s.queue| && id in s.queue[..s.batch.value.size]
  }

  /** A step that parses no reply; only a completion makes the message done. */
  predicate Quiet(s: State, e: Event, id: nat, m: Msg, m': Msg) {
    Kept(m, m') && (m'.stage == Done && m.stage != Done ==> Ends(s, e, id))
  }

  lemma InBatch(s: State, id: nat, q: nat)
    requires Inv(s) && s.batch.Some? && q < |s.queue| && s.queue[q] == id
    ensures id in s.queue[..s.batch.value.size] <==> q < s.batch.value.size
  {
    var n := s.batch.value.size;
    if q < n { assert s.queue[..n][q] == id; }
    if id in s.queue[..n] {
      var r :| 0 <= r < n && s.queue[..n][r] == id;
      assert s.queue[r] == id;
    }
  }

  /** Where a message stands when its batch is taken off the queue. */
  lemma TakenOff(s: State, failed: bool, id: nat)
    requires Inv(s) && Enabled(s, Complete(failed)) && id < |s.msgs|
    ensures var t, m := Dequeued(s, failed), s.msgs[id];
            |t.msgs| == |s.msgs|
            && if Ends(s, Complete(failed), id)
               then m.stage != Done && t.msgs[id].stage == Done && id !in t.queue
                    && t.msgs[id].err == if failed then EIO else if m.stage == ReplyFound then m.err else ENOENT
               else t.msgs[id].stage == m.stage && t.msgs[id].err == m.err
  {
    DequeuedMsgs(s, failed);
    if id in s.queue {
      var q :| 0 <= q < |s.queue| && s.queue[q] == id;
      assert QueuedOk(s, q, id, s.msgs[id]);
      InBatch(s, id, q);
    }
  }

  lemma Completed(s: State, failed: bool, id: nat)
    requires Inv(s) && Enabled(s, Complete(failed)) && id < |s.msgs|
    ensures var t, m := DoComplete(s, failed), s.msgs[id];
            |t.msgs| == |s.msgs| && Quiet(s, Complete(failed), id, m, t.msgs[id])
            && (Ends(s, Complete(failed), id) ==>
                  t.msgs[id].stage == Done
                  && t.msgs[id].err == if failed then EIO else if m.stage == ReplyFound then m.err else ENOENT)
  {
    TakenOff(s, failed, id);
    DequeuedTail(s, failed);
  }

  lemma QuietArrival(s: State, e: Event, id: nat)
    requires Inv(s) && Enabled(s, e) && (e.Communicate? || e.Post?) && id < |Apply(s, e).msgs|
    ensures |s.msgs| <= |Apply(s, e).msgs|
    ensures id < |s.msgs| ==> Quiet(s, e, id, s.msgs[id], Apply(s, e).msgs[id])
    ensures |s.msgs| <= id ==> Apply(s, e).msgs[id].err == 0 && !InProgress(Apply(s, e).msgs[id])
  {
  }

  lemma QuietRelock(s: State, who: nat, id: nat)
    requires Inv(s) && Enabled(s, Relock(who)) && id < |s.msgs|
    ensures |s.msgs| == |DoRelock(s, who).msgs|
    ensures Quiet(s, Relock(who), id, s.msgs[id], DoRelock(s, who).msgs[id])
  {
    if IsFirst(s, who) {
      var t := SetPc(s, who, Running);
      BusyShape(t.msgs, t.queue, BatchLen(Space(t.mboxLen), Lens(t.msgs, t.queue)));
    }
  }

  lemma QuietStart(s: State, e: Event, id: nat)
    requires Inv(s) && Enabled(s, e) && (e.RunqStart? || e.WaitStart? || e.ReleaseBar?) && id < |s.msgs|
    ensures |s.msgs| == |Apply(s, e).msgs| && Quiet(s, e, id, s.msgs[id], Apply(s, e).msgs[id])
  {
  }

  lemma QuietStep(s: State, e: Event, id: nat)
    requires Inv(s) && Enabled(s, e) && !e.ParseReply? && id < |s.msgs|
    ensures |s.msgs| <= |Apply(s, e).msgs| && Quiet(s, e, id, s.msgs[id], Apply(s, e).msgs[id])
  {
    if e.Communicate? || e.Post? {
      QuietArrival(s, e, id);
    } else if e.Complete? {
      Completed(s, e.failed, id);
    } else if e.Relock? {
      QuietRelock(s, e.id, id);
    } else if e.RunqStart? || e.WaitStart? || e.ReleaseBar? {
      QuietStart(s, e, id);
    }
  }

  // ---- the replies found so far ----

  predicate Good(es: seq<Event>, id: nat) { ParseReply(id, true) in es }

  predicate Bad(es: seq<Event>, id: nat) { ParseReply(id, false) in es }

  /** Until it is done, a message shows exactly which replies were found for it. */
  predicate Heard(m: Msg, id: nat, es: seq<Event>) {
    m.stage != Done ==> (m.stage == ReplyFound <==> Good(es, id)) && m.err == if Bad(es, id) then EIO else 0
  }

  ghost predicate History(s: State, es: seq<Event>) {
    (forall id: nat :: Good(es, id) || Bad(es, id) ==> id < |s.msgs|)
    && forall id: nat :: id < |s.msgs| ==> Heard(s.msgs[id], id, es)
  }

  lemma HeardNew(s: State, e: Event, es: seq<Event>, id: nat)
    requires Inv(s) && Enabled(s, e) && History(s, es) && |s.msgs| <= id < |Apply(s, e).msgs|
    ensures Heard(Apply(s, e).msgs[id], id, es + [e])
  {
    assert !Good(es, id) && !Bad(es, id);
    if e.Communicate? || e.Post? {
      QuietArrival(s, e, id);
    } else if e.ParseReply? {
      assert false;
    } else {
      SameMessages(s, e);
    }
  }

  lemma HeardOld(s: State, e: Event, es: seq<Event>, id: nat)
    requires Inv(s) && Enabled(s, e) && id < |s.msgs| && Heard(s.msgs[id], id, es)
    ensures id < |Apply(s, e).msgs| && Heard(Apply(s, e).msgs[id], id, es + [e])
  {
    if !e.ParseReply? { QuietStep(s, e, id); }
  }

  lemma HistoryStep(s: State, e: Event, es: seq<Event>)
    requires Inv(s) && Enabled(s, e) && History(s, es)
    ensures History(Apply(s, e), es + [e])
  {
    if |s.msgs| > 0 { HeardOld(s, e, es, 0); }
    forall id: nat | id < |Apply(s, e).msgs| ensures Heard(Apply(s, e).msgs[id], id, es + [e]) {
      if id < |s.msgs| { HeardOld(s, e, es, id); } else { HeardNew(s, e, es, id); }
    }
    forall id: nat | Good(es + [e], id) || Bad(es + [e], id) ensures id < |Apply(s, e).msgs| {
      if Good(es, id) || Bad(es, id) { HeardOld(s, e, es, id); }
    }
  }

  lemma {:induction false} HistoryRun(s: State, past: seq<Event>, es: seq<Event>)
    requires Inv(s) && Legal(s, es) && History(s, past)
    ensures History(Exec(s, es), past + es)
    decreases |es|
  {
    if es == [] {
      assert past + es == past;
    } else {
      StepKeeps(s, es[0]);
      HistoryStep(s, es[0], past);
      HistoryRun(Apply(s, es[0]), past + [es[0]], es[1..]);
      assert past + [es[0]] + es[1..] == past + es;
    }
  }

  lemma HistoryOf(mboxLen: nat, es: seq<Event>)
    requires Inv(Init(mboxLen)) && Legal(Init(mboxLen), es)
    ensures History(Exec(Init(mboxLen), es), es)
  {
    HistoryRun(Init(mboxLen), [], es);
    assert [] + es == es;
  }

  // ---- messages that are done ----

  lemma DoneStep(s: State, e: Event, id: nat)
    requires Inv(s) && Enabled(s, e) && id < |s.msgs| && s.msgs[id].stage == Done
    ensures id < |Apply(s, e).msgs| && Apply(s, e).msgs[id].stage == Done && Apply(s, e).msgs[id].err == s.msgs[id].err
  {
    if e.ParseReply? {
      var q :| 0 <= q < s.batch.value.size && s.queue[..s.batch.value.size][q] == e.id;
      assert s.queue[q] == e.id && QueuedOk(s, q, e.id, s.msgs[e.id]);
    } else {
      QuietStep(s, e, id);
    }
  }

  lemma {:induction false} DoneStays(s: State, es: seq<Event>, id: nat)
    requires Inv(s) && Legal(s, es) && id < |s.msgs| && s.msgs[id].stage == Done
    ensures var t := Exec(s, es); id < |t.msgs| && t.msgs[id].stage == Done && t.msgs[id].err == s.msgs[id].err
    decreases |es|
  {
    if es != [] {
      StepKeeps(s, es[0]);
      DoneStep(s, es[0], id);
      DoneStays(Apply(s, es[0]), es[1..], id);
    }
  }

  lemma {:induction false} RunSplits(s: State, a: seq<Event>, b: seq<Event>)
    requires Inv(s) && Legal(s, a + b)
    ensures Legal(s, a) && Legal(Exec(s, a), b) && Exec(s, a + b) == Exec(Exec(s, a), b)
    decreases |a|
  {
    if a == [] {
      assert a + b == b;
    } else {
      StepKeeps(s, a[0]);
      assert (a + b)[1..] == a[1..] + b;
      RunSplits(Apply(s, a[0]), a[1..], b);
    }
  }

  /** A caller that returned got the error of its message, or gave up on one that was not done. */
  lemma ReturnIs(s: State, id: nat)
    requires Inv(s) && id < |s.msgs| && s.msgs[id].pc.Gone?
    ensures s.msgs[id].pc == Gone(if s.msgs[id].stage == Done then s.msgs[id].err else ETIMEDOUT)
  {
    forall p | 0 <= p < |s.queue| ensures s.queue[p] != id {
      assert QueuedOk(s, p, s.queue[p], s.msgs[s.queue[p]]);
    }
    assert LeftOk(s, id, s.msgs[id]);
  }

  // ---- results ----

  /** Step k of the run ends a batch with the message in it. */
  ghost predicate EndsAt(s: State, es: seq<Event>, k: nat, id: nat)
    requires Inv(s)
  {
    k < |es| && Legal(s, es[..k]) && Ends(Exec(s, es[..k]), es[k], id)
  }

  lemma VerdictStep(s: State, es: seq<Event>, failed: bool, id: nat)
    requires Inv(s) && Enabled(s, Complete(failed)) && Ends(s, Complete(failed), id) && History(s, es)
    ensures var t := Apply(s, Complete(failed));
            id < |t.msgs| && t.msgs[id].stage == Done && t.msgs[id].err == Verdict(failed, Good(es, id), Bad(es, id))
  {
    var q :| 0 <= q < s.batch.value.size && s.queue[..s.batch.value.size][q] == id;
    assert s.queue[q] == id && QueuedOk(s, q, id, s.msgs[id]);
    Completed(s, failed, id);
    assert Heard(s.msgs[id], id, es);
  }

  /** In every run: from the end of its batch on, a message is done and its error is decided by the replies found for
      it before; a caller that has returned got exactly that. */
  lemma ResultExactly(mboxLen: nat, es: seq<Event>, k: nat, id: nat)
    requires Inv(Init(mboxLen)) && Legal(Init(mboxLen), es) && EndsAt(Init(mboxLen), es, k, id)
    ensures var t, v := Exec(Init(mboxLen), es), Verdict(es[k].failed, Good(es[..k], id), Bad(es[..k], id));
            id < |t.msgs| && t.msgs[id].stage == Done && t.msgs[id].err == v
            && (t.msgs[id].pc.Gone? ==> t.msgs[id].pc == Gone(v))
  {
    var a, b := es[..k], es[k..];
    var s := Exec(Init(mboxLen), a);
    assert es == a + b;
    RunSplits(Init(mboxLen), a, b);
    HistoryOf(mboxLen, a);
    VerdictStep(s, a, es[k].failed, id);
    StepKeeps(s, b[0]);
    DoneStays(Apply(s, b[0]), b[1..], id);
    if Exec(Init(mboxLen), es).msgs[id].pc.Gone? { ReturnIs(Exec(Init(mboxLen), es), id); }
  }

  lemma DoneNow(s: State, e: Event, id: nat)
    requires Inv(s) && Enabled(s, e) && id < |Apply(s, e).msgs| && Apply(s, e).msgs[id].stage == Done
    requires id < |s.msgs| ==> s.msgs[id].stage != Done
    ensures Ends(s, e, id)
  {
    if id < |s.msgs| {
      if !e.ParseReply? { QuietStep(s, e, id); }
    } else {
      if e.Communicate? || e.Post? { QuietArrival(s, e, id); } else { SameMessages(s, e); }
      assert false;
    }
  }

  lemma EndsLater(s: State, es: seq<Event>, k: nat, id: nat)
    requires Inv(s) && es != [] && Enabled(s, es[0]) && Inv(Apply(s, es[0])) && EndsAt(Apply(s, es[0]), es[1..], k, id)
    ensures EndsAt(s, es, k + 1, id)
  {
    assert es[..k + 1][1..] == es[1..][..k];
  }

  /** A message that is done was in a batch that ended. */
  lemma {:induction false} DoneEnds(s: State, es: seq<Event>, id: nat) returns (k: nat)
    requires Inv(s) && Legal(s, es) && id < |Exec(s, es).msgs| && Exec(s, es).msgs[id].stage == Done
    requires id < |s.msgs| ==> s.msgs[id].stage != Done
    ensures EndsAt(s, es, k, id)
    decreases |es|
  {
    var t := Apply(s, es[0]);
    StepKeeps(s, es[0]);
    if id < |t.msgs| && t.msgs[id].stage == Done {
      DoneNow(s, es[0], id);
      assert es[..0] == [];
      k := 0;
    } else {
      k := DoneEnds(t, es[1..], id);
      EndsLater(s, es, k, id);
      k := k + 1;
    }
  }

  /** In every run a caller that returned got the verdict on its message, or -ETIMEDOUT if that is not done. */
  lemma EveryResult(mboxLen: nat, es: seq<Event>, id: nat) returns (k: nat)
    requires Inv(Init(mboxLen)) && Legal(Init(mboxLen), es)
    requires var t := Exec(Init(mboxLen), es); id < |t.msgs| && t.msgs[id].pc.Gone?
    ensures var m := Exec(Init(mboxLen), es).msgs[id];
            if m.stage == Done
            then EndsAt(Init(mboxLen), es, k, id)
                 && m.pc == Gone(Verdict(es[k].failed, Good(es[..k], id), Bad(es[..k], id)))
            else m.pc == Gone(ETIMEDOUT)
  {
    var m := Exec(Init(mboxLen), es).msgs[id];
    ReturnIs(Exec(Init(mboxLen), es), id);
    k := 0;
    if m.stage == Done {
      k := DoneEnds(Init(mboxLen), es, id);
      ResultExactly(mboxLen, es, k, id);
    }
  }

  lemma VerdictZero(failed: bool, good: bool, bad: bool)
    ensures Verdict(failed, good, bad) == 0 <==> !failed && good && !bad
    ensures Verdict(failed, good, bad) != ETIMEDOUT
  {
  }

  /** Step k ends a batch with the message in it that did not fail, and a good reply and no bad one was found before. */
  ghost predicate AnsweredAt(s: State, es: seq<Event>, k: nat, id: nat)
    requires Inv(s)
  {
    EndsAt(s, es, k, id) && !es[k].failed && Good(es[..k], id) && !Bad(es[..k], id)
  }

  /** A caller gets 0 back exactly if its message was answered like that. */
  lemma SuccessExactly(mboxLen: nat, es: seq<Event>, id: nat)
    requires Inv(Init(mboxLen)) && Legal(Init(mboxLen), es)
    requires var t := Exec(Init(mboxLen), es); id < |t.msgs| && t.msgs[id].pc.Gone?
    ensures Exec(Init(mboxLen), es).msgs[id].pc == Gone(0) <==> exists k: nat :: AnsweredAt(Init(mboxLen), es, k, id)
  {
    if exists k: nat :: AnsweredAt(Init(mboxLen), es, k, id) {
      var k: nat :| AnsweredAt(Init(mboxLen), es, k, id);
      ResultExactly(mboxLen, es, k, id);
    } else {
      var k := EveryResult(mboxLen, es, id);
      if EndsAt(Init(mboxLen), es, k, id) {
        assert !AnsweredAt(Init(mboxLen), es, k, id);
        VerdictZero(es[k].failed, Good(es[..k], id), Bad(es[..k], id));
      }
    }
  }

  // ---- callers do return ----

  /** The next step of the caller of a message that is done. */
  function NextStep(m: Msg, id: nat): Event {
    match m.pc
    case Sleeping => Wake(id, false)
    case Woken(_) => CheckDone(id)
    case Retrying(_) => Relock(id)
    case Draining => Drained(id)
    case _ => ReleaseBar
  }

  function StepsLeft(m: Msg): nat {
    match m.pc
    case Sleeping => 3
    case Woken(_) => 2
    case Retrying(_) => 2
    case Gone(_) => 0
    case _ => 1
  }

  lemma DrainsNext(s: State, id: nat)
    requires Inv(s) && id < |s.msgs| && s.msgs[id].stage == Done && id !in s.queue && s.msgs[id].pc.Retrying?
    ensures Apply(s, Relock(id)) == SetPc(s, id, Draining)
  {
  }

  lemma ReturnStep(s: State, id: nat)
    requires Inv(s) && id < |s.msgs| && s.msgs[id].stage == Done && !s.msgs[id].posted && !s.msgs[id].pc.Gone?
    ensures var e := NextStep(s.msgs[id], id);
            Enabled(s, e) && id < |Apply(s, e).msgs| && StepsLeft(Apply(s, e).msgs[id]) < StepsLeft(s.msgs[id])
            && !Apply(s, e).msgs[id].posted
  {
    DoneLeft(s, id);
    if s.msgs[id].pc.Retrying? { DrainsNext(s, id); }
  }

  /** The caller of a message that is done can return, by steps of its own, and gets the error of the message. */
  lemma {:induction false} CanReturn(s: State, id: nat) returns (es: seq<Event>)
    requires Inv(s) && id < |s.msgs| && s.msgs[id].stage == Done && !s.msgs[id].posted
    ensures Legal(s, es) && id < |Exec(s, es).msgs| && Exec(s, es).msgs[id].pc == Gone(s.msgs[id].err)
    decreases StepsLeft(s.msgs[id])
  {
    if s.msgs[id].pc.Gone? {
      ReturnIs(s, id);
      es := [];
    } else {
      var e := NextStep(s.msgs[id], id);
      ReturnStep(s, id);
      StepKeeps(s, e);
      DoneStep(s, e, id);
      var rest := CanReturn(Apply(s, e), id);
      FirstStep(s, e, rest);
      es := [e] + rest;
    }
  }

  lemma DoneLeft(s: State, id: nat)
    requires Inv(s) && id < |s.msgs| && s.msgs[id].stage == Done
    ensures id !in s.queue && LeftOk(s, id, s.msgs[id])
  {
    forall p | 0 <= p < |s.queue| ensures s.queue[p] != id {
      assert QueuedOk(s, p, s.queue[p], s.msgs[s.queue[p]]);
    }
  }
}

/**
 The tags of mailbox requests (src/ccm_mbox.c): a 16-bit counter stamps every request that is enqueued,
 and replies are matched by it. Over all runs, the requests of a batch have distinct tags exactly if no two
 of them are a multiple of 65536 requests apart.
 */
module MailboxTags {
  import opened Wrappers
  import opened MailboxProtocol
  import opened MailboxTheorems
  import Bytes = MailboxBatch

  const TAGS: nat := 0x1_0000

  /** The tag of request `id`, counting requests in the order in which they were enqueued. */
  function TagOf(first: nat, id: nat): nat { (first + id) % TAGS }

  predicate DistinctTags(first: nat, ids: seq<nat>) {
    forall i, j :: 0 <= i < j < |ids| ==> TagOf(first, ids[i]) != TagOf(first, ids[j])
  }

  /** No two of the requests are a multiple of the number of tags apart. */
  predicate Apart(ids: seq<nat>) { forall i, j :: 0 <= i < j < |ids| ==> (ids[j] - ids[i]) % TAGS != 0 }

  lemma SameTag(first: nat, a: nat, b: nat)
    ensures TagOf(first, a) == TagOf(first, b) <==> (b - a) % TAGS == 0
  {
  }

  lemma DistinctExactly(first: nat, ids: seq<nat>)
    ensures DistinctTags(first, ids) <==> Apart(ids)
  {
    forall i, j | 0 <= i < j < |ids|
      ensures TagOf(first, ids[i]) == TagOf(first, ids[j]) <==> (ids[j] - ids[i]) % TAGS == 0
    {
      SameTag(first, ids[i], ids[j]);
    }
  }

  lemma CloseApart(a: nat, b: nat)
    requires a < b < a + TAGS
    ensures (b - a) % TAGS != 0
  {
  }

  lemma Close(s: State, first: nat, i: nat, j: nat)
    requires Inv(s) && i < j < |s.queue| && |s.msgs| <= s.queue[0] + TAGS
    ensures TagOf(first, s.queue[i]) != TagOf(first, s.queue[j])
  {
    var a, b := s.queue[i], s.queue[j];
    assert s.queue[0] <= a < b < |s.msgs|;
    CloseApart(a, b);
    SameTag(first, a, b);
  }

  /** In every run: as long as at most 65536 requests were enqueued since the oldest in the queue, all
      tags in the queue, and so in any batch, are distinct. */
  lemma RecentTagsDistinct(s: State, first: nat, n: nat)
    requires Inv(s) && s.queue != [] && |s.msgs| <= s.queue[0] + TAGS && n <= |s.queue|
    ensures DistinctTags(first, s.queue[..n])
  {
    forall i, j | 0 <= i < j < n ensures TagOf(first, s.queue[..n][i]) != TagOf(first, s.queue[..n][j]) {
      Close(s, first, i, j);
    }
  }

  // ---- delivery of a batch ----

  /** The messages carry the tags of these requests. */
  predicate Stamped(first: nat, ids: seq<nat>, ms: seq<Bytes.Skb>)
    requires Bytes.HasHeaders(ms)
  {
    |ms| == |ids| && forall i :: 0 <= i < |ms| ==> Bytes.Tag(ms[i].data) == TagOf(first, ids[i])
  }

  /** What delivery asks of a batch holds in every such run. */
  lemma BatchTagsDistinct(s: State, first: nat, ms: seq<Bytes.Skb>)
    requires Reachable(s) && s.batch.Some? && Bytes.HasHeaders(ms)
    requires s.queue != [] && |s.msgs| <= s.queue[0] + TAGS
    ensures s.batch.value.size <= |s.queue|
    ensures Stamped(first, s.queue[..s.batch.value.size], ms) ==> Bytes.DistinctTags(ms)
  {
    ReachableInv(s);
    RecentTagsDistinct(s, first, s.batch.value.size);
  }

  // ---- a run in which two tags of a batch are the same ----

  /** A mailbox of this length has room for two of the shortest requests: TLV headers, message headers and the
      shortest reply that preparing a message allows. */
  const ROOM: nat := 28

  /** A posted request waits at the head for the mailbox, which someone else has locked. */
  predicate Stuck(s: State, n: nat) {
    ROOM <= s.mboxLen && |s.msgs| == n && 1 <= n && s.queue == [0]
    && s.msgs[0] == Msg(Next, 0, true, 4, NoThread) && s.batch == None && s.bar == Other && s.runqPending
  }

  lemma Enqueued(s: State, n: nat)
    requires Inv(s) && Stuck(s, n)
    ensures Apply(s, Communicate(4, false)) ==
            s.(msgs := s.msgs + [Msg(Queued, 0, false, 4, Sleeping)], queue := [0, n])
  {
    assert s.queue + [n] == [0, n];
  }

  /** The state while the request stands at pc. */
  function Waiting(s: State, pc: Pc): State {
    s.(msgs := s.msgs + [Msg(Queued, 0, false, 4, pc)], queue := [0, |s.msgs|])
  }

  lemma Moves(s: State, n: nat, from: Pc, to: Pc)
    requires Stuck(s, n)
    ensures SetPc(Waiting(s, from), n, to) == Waiting(s, to)
  {
    assert Waiting(s, from).msgs[n := Msg(Queued, 0, false, 4, to)] == Waiting(s, to).msgs;
  }

  lemma Leaves(s: State, n: nat)
    requires Inv(s) && Stuck(s, n) && IdsOk(Waiting(s, Retrying(true)).msgs, [0, n])
    ensures Stuck(DoRelock(Waiting(s, Retrying(true)), n), n + 1)
  {
    var t := Waiting(s, Retrying(true));
    Moves(s, n, Retrying(true), Gone(ETIMEDOUT));
    assert Remove([0, n], n) == [0] by { assert [0, n][1..] == [n] && [n][1..] == []; }
  }

  predicate Takes(s: State, e: Event, t: State) { Inv(s) && Enabled(s, e) && Apply(s, e) == t && Inv(t) }

  lemma TakesEnqueue(s: State, n: nat)
    requires Inv(s) && Stuck(s, n)
    ensures Takes(s, Communicate(4, false), Waiting(s, Sleeping))
  {
    Enqueued(s, n);
    StepKeeps(s, Communicate(4, false));
  }

  lemma TakesWake(s: State, n: nat)
    requires Stuck(s, n) && Inv(Waiting(s, Sleeping))
    ensures Takes(Waiting(s, Sleeping), Wake(n, true), Waiting(s, Woken(true)))
  {
    Moves(s, n, Sleeping, Woken(true));
    StepKeeps(Waiting(s, Sleeping), Wake(n, true));
  }

  lemma TakesCheck(s: State, n: nat)
    requires Stuck(s, n) && Inv(Waiting(s, Woken(true)))
    ensures Takes(Waiting(s, Woken(true)), CheckDone(n), Waiting(s, Retrying(true)))
  {
    Moves(s, n, Woken(true), Retrying(true));
    StepKeeps(Waiting(s, Woken(true)), CheckDone(n));
  }

  lemma TakesLeave(s: State, n: nat) returns (t: State)
    requires Inv(s) && Stuck(s, n) && Inv(Waiting(s, Retrying(true)))
    ensures Takes(Waiting(s, Retrying(true)), Relock(n), t) && Stuck(t, n + 1)
  {
    Leaves(s, n);
    StepKeeps(Waiting(s, Retrying(true)), Relock(n));
    t := Apply(Waiting(s, Retrying(true)), Relock(n));
  }

  /** A run that starts with a step. */
  lemma Prepended(s: State, e: Event, t: State, es: seq<Event>)
    requires Takes(s, e, t) && Legal(t, es)
    ensures Legal(s, [e] + es) && Exec(s, [e] + es) == Exec(t, es)
  {
    FirstStep(s, e, es);
  }

  /** One request more times out. */
  lemma OneTimesOut(s: State, n: nat) returns (t: State)
    requires Inv(s) && Stuck(s, n)
    ensures Stuck(t, n + 1) && Takes(s, Communicate(4, false), Waiting(s, Sleeping))
    ensures Takes(Waiting(s, Sleeping), Wake(n, true), Waiting(s, Woken(true)))
    ensures Takes(Waiting(s, Woken(true)), CheckDone(n), Waiting(s, Retrying(true)))
    ensures Takes(Waiting(s, Retrying(true)), Relock(n), t)
  {
    TakesEnqueue(s, n);
    TakesWake(s, n);
    TakesCheck(s, n);
    t := TakesLeave(s, n);
  }

  /** The batch is the two requests 0 and n. */
  predicate BatchOf(s: State, n: nat) {
    s.batch.Some? && s.batch.value.size == 2 && s.queue == [0, n]
  }

  lemma {:induction false} TakesPost(s: State, n: nat)
    requires Inv(s) && Stuck(s, n)
    ensures Takes(s, Post(4), s.(msgs := s.msgs + [Msg(Queued, 0, true, 4, NoThread)], queue := [0, n]))
  {
    assert s.queue + [n] == [0, n];
    StepKeeps(s, Post(4));
  }

  lemma {:induction false} TwoFit(msgs: seq<Msg>, n: nat, len: nat)
    requires 1 <= n < |msgs| && msgs[0].maxLen == 4 && msgs[n].maxLen == 4 && ROOM <= len
    ensures IdsOk(msgs, [0, n]) && BatchLen(Space(len), Lens(msgs, [0, n])) == 2
  {
    assert [0, n][1..] == [n] && [n][1..] == [];
    assert Lens(msgs, [n]) == [4];
    assert Lens(msgs, [0, n]) == [4, 4];
    var left := Space(len) - 8;
    assert Extend(left, [4, 4], 1) == Extend(left - 8, [4, 4], 2);
  }

  lemma TakesRunq(s: State, n: nat) returns (t: State)
    requires Inv(s) && ROOM <= s.mboxLen && 1 <= n < |s.msgs| && s.queue == [0, n] && s.runqPending && s.batch == None
    requires s.msgs[0] == Msg(Next, 0, true, 4, NoThread) && s.msgs[n].maxLen == 4
    ensures Takes(s, RunqStart, t) && BatchOf(t, n)
  {
    TwoFit(s.msgs, n, s.mboxLen);
    StepKeeps(s, RunqStart);
    t := Apply(s, RunqStart);
  }

  /** From there on, requests time out until the tags come round, and then a second one is posted. */
  lemma {:induction false} ComesRound(s: State, n: nat, last: nat) returns (es: seq<Event>)
    requires Inv(s) && Stuck(s, n) && n <= last
    ensures Legal(s, es) && BatchOf(Exec(s, es), last)
    decreases last - n
  {
    if n == last {
      TakesPost(s, n);
      var a := Apply(s, Post(4));
      var b := TakesRunq(a, n);
      Prepended(a, RunqStart, b, []);
      Prepended(s, Post(4), a, [RunqStart] + []);
      es := [Post(4)] + ([RunqStart] + []);
    } else {
      var t := OneTimesOut(s, n);
      var rest := ComesRound(t, n + 1, last);
      Prepended(Waiting(s, Retrying(true)), Relock(n), t, rest);
      es := [Relock(n)] + rest;
      Prepended(Waiting(s, Woken(true)), CheckDone(n), Waiting(s, Retrying(true)), es);
      es := [CheckDone(n)] + es;
      Prepended(Waiting(s, Sleeping), Wake(n, true), Waiting(s, Woken(true)), es);
      es := [Wake(n, true)] + es;
      Prepended(s, Communicate(4, false), Waiting(s, Sleeping), es);
      es := [Communicate(4, false)] + es;
    }
  }

  lemma StartStuck(len: nat) returns (a: State, b: State)
    requires ROOM <= len
    ensures Takes(Init(len), OtherLock, a) && Takes(a, Post(4), b) && Stuck(b, 1)
  {
    InitInv(len);
    StepKeeps(Init(len), OtherLock);
    a := Apply(Init(len), OtherLock);
    a, b := StartPost(a, len);
  }

  lemma StartPost(s: State, len: nat) returns (a: State, b: State)
    requires Inv(s) && ROOM <= len && s == Init(len).(bar := Other)
    ensures a == s && Takes(a, Post(4), b) && Stuck(b, 1)
  {
    a := s;
    StepKeeps(a, Post(4));
    b := Apply(a, Post(4));
    assert a.queue + [0] == [0];
  }

  lemma RunTo(len: nat, last: nat) returns (es: seq<Event>)
    requires ROOM <= len && 1 <= last
    ensures Inv(Init(len)) && Legal(Init(len), es) && BatchOf(Exec(Init(len), es), last)
  {
    var a, b := StartStuck(len);
    var rest := ComesRound(b, 1, last);
    Prepended(a, Post(4), b, rest);
    Prepended(Init(len), OtherLock, a, [Post(4)] + rest);
    es := [OtherLock] + ([Post(4)] + rest);
  }

  lemma BatchCollides(s: State, first: nat, last: nat)
    requires BatchOf(s, last) && last % TAGS == 0
    ensures !DistinctTags(first, s.queue[..s.batch.value.size])
  {
    SameTag(first, 0, last);
    var ids := s.queue[..2];
    assert ids[0] == 0 && ids[1] == last;
  }

  /** The condition is needed: in every mailbox with room for two requests, whenever the number of requests comes
      round, a run leads to a batch that holds two requests with the same tag. */
  lemma TagsCanCollide(first: nat, len: nat, last: nat) returns (es: seq<Event>, s: State)
    requires ROOM <= len && 0 < last && last % TAGS == 0
    ensures Inv(Init(len)) && Legal(Init(len), es) && s == Exec(Init(len), es)
    ensures s.batch.Some? && s.batch.value.size <= |s.queue|
    ensures !DistinctTags(first, s.queue[..s.batch.value.size])
  {
    es := RunTo(len, last);
    s := Exec(Init(len), es);
    BatchCollides(s, first, last);
  }
}

/**
 Compiling the qdisc hierarchy of an ABM link into the firmware, in place (src/abm/qdisc.c,
 src/abm/ctrl.c), and the notifications that lead to it.
 */
module AbmOffload {
  import opened Wrappers
  import opened AbmGraph
  import opened AbmEvents
  import opened AbmCompile

  // ---- the firmware configuration, with its write-through caches ----

  class Abm {
    const numBands: nat
    const thresholds: array<nat>
    const actions: array<Action>
    const levels: array<nat>
    const acts: array<Action>
    var undef: set<nat>

    ghost predicate Valid()
      reads this, thresholds, actions, levels, acts
    {
      numBands <= MAX_DPS && thresholds != levels && actions != acts
      && thresholds.Length == levels.Length == actions.Length == acts.Length == numBands * MAX_RX_RINGS
      && thresholds[..] == levels[..] && actions[..] == acts[..]
    }

    /** After the firmware has been reset (nfp_abm_fw_init_reset()). */
    constructor (numBands: nat)
      requires numBands <= MAX_DPS
      ensures Valid() && undef == {} && this.numBands == numBands
      ensures fresh(thresholds) && fresh(actions) && fresh(levels) && fresh(acts)
      ensures forall id :: 0 <= id < levels.Length ==> levels[id] == INFINITY && acts[id] == Drop
    {
      this.numBands := numBands;
      thresholds := new nat[numBands * MAX_RX_RINGS](_ => INFINITY);
      levels := new nat[numBands * MAX_RX_RINGS](_ => INFINITY);
      actions := new Action[numBands * MAX_RX_RINGS](_ => Drop);
      acts := new Action[numBands * MAX_RX_RINGS](_ => Drop);
      undef := {};
    }

    /** __nfp_abm_ctrl_set_q_lvl() */
    method SetLevel(id: nat, val: nat, fault: bool) returns (ok: bool)
      requires Valid() && id < thresholds.Length
      modifies this, thresholds, levels
      ensures Valid() && undef == old(undef) - {id}
      ensures thresholds[..] == if fault then old(thresholds[..]) else old(thresholds[..])[id := val]
      ensures ok <==> thresholds[id] == val
    {
      undef := undef - {id};
      if thresholds[id] == val {
        return true;
      }
      if fault {
        return false;
      }
      levels[id] := val;
      thresholds[id] := val;
      return true;
    }

    /** __nfp_abm_ctrl_set_q_act() */
    method SetAction(id: nat, act: Action, fault: bool) returns (ok: bool)
      requires Valid() && id < actions.Length
      modifies actions, acts
      ensures Valid()
      ensures actions[..] == if fault then old(actions[..]) else old(actions[..])[id := act]
      ensures ok <==> actions[id] == act
    {
      if actions[id] == act {
        return true;
      }
      if fault {
        return false;
      }
      acts[id] := act;
      actions[id] := act;
      return true;
    }

    method MarkUndefined(base: nat, queues: nat)
      requires base + queues <= MAX_RX_RINGS
      modifies this`undef
      ensures undef == old(undef) + Owned(base, queues, numBands)
    {
      var i := 0;
      while i < numBands
        invariant 0 <= i <= numBands && undef == old(undef) + Owned(base, queues, i)
      {
        OwnedOn(base, queues, i);
        undef := undef + Range(IdOf(i, base), queues);
        i := i + 1;
      }
    }

    method ResetUndefined(bad: set<nat>)
      requires Valid() && Below(undef, thresholds.Length)
      modifies this, thresholds, levels
      ensures Valid() && undef == {} && thresholds[..] == Reset(old(thresholds[..]), old(undef), bad, thresholds.Length)
    {
      var i := 0;
      while i < thresholds.Length
        invariant 0 <= i <= thresholds.Length && Valid()
        invariant undef == Above(old(undef), i)
        invariant thresholds[..] == Reset(old(thresholds[..]), old(undef), bad, i)
      {
        ResetOn(old(thresholds[..]), old(undef), bad, i);
        AboveOn(old(undef), i);
        if i in undef {
          var _ := SetLevel(i, INFINITY, i in bad);
        }
        i := i + 1;
      }
    }

    /** The loop of nfp_abm_offload_compile_red() that programs one ring. */
    method ProgramRing(ring: nat, bands: seq<Band>, f: Faults)
      requires Valid() && ring < MAX_RX_RINGS && |bands| == MAX_DPS
      modifies this, thresholds, levels, actions, acts
      ensures Valid() && undef == Defined(old(undef), ring, numBands)
      ensures thresholds[..] == Filled(old(thresholds[..]), ring, Levels(bands), f.levels, numBands)
      ensures actions[..] == Filled(old(actions[..]), ring, Actions(bands), f.actions, numBands)
    {
      var i := 0;
      while i < numBands
        invariant 0 <= i <= numBands && Valid() && undef == Defined(old(undef), ring, i)
        invariant thresholds[..] == Filled(old(thresholds[..]), ring, Levels(bands), f.levels, i)
        invariant actions[..] == Filled(old(actions[..]), ring, Actions(bands), f.actions, i)
      {
        var id := IdOf(i, ring);
        FilledOn(old(thresholds[..]), ring, Levels(bands), f.levels, i);
        FilledOn(old(actions[..]), ring, Actions(bands), f.actions, i);
        DefinedOn(old(undef), ring, i);
        var _ := SetLevel(id, bands[i].threshold, id in f.levels);
        var _ := SetAction(id, ActionOf(bands[i]), id in f.actions);
        i := i + 1;
      }
    }
  }

  // ---- marking queue by queue ----

  function Unmarked(qs: Qdiscs): (r: Qdiscs)
    ensures r.Keys == qs.Keys
  {
    map h: nat | h in qs :: qs[h].(mark := false)
  }

  /** The qdiscs with their marks after the first n queues of the root MQ have been compiled. */
  function Marks(l: Link, n: nat, bad: set<nat>): (r: Qdiscs)
    ensures r.Keys == l.qdiscs.Keys
  {
    map h: nat | h in l.qdiscs :: l.qdiscs[h].(mark := Marked(l, n, bad, h))
  }

  lemma MarksStart(l: Link, bad: set<nat>)
    requires RootMq(l)
    ensures Marks(l, 0, bad) == Unmarked(l.qdiscs)[l.root.value := l.qdiscs[l.root.value].(mark := true)]
  {
  }

  lemma NothingMarked(l: Link, n: nat, bad: set<nat>)
    requires !RootMq(l)
    ensures Marks(l, n, bad) == Unmarked(l.qdiscs)
  {
  }

  lemma AtRootOn(l: Link, n: nat, h: nat)
    requires RootMq(l) && n < |l.qdiscs[l.root.value].children|
    ensures AtRoot(l, n + 1, h) <==> AtRoot(l, n, h) || Occupant(l, n) == Some(h)
  {
    if AtRoot(l, n, h) {
      var i: nat :| i < n && Holds(l.qdiscs, l.root.value, i, h);
      assert i < n + 1 && Holds(l.qdiscs, l.root.value, i, h);
    }
    if Occupant(l, n) == Some(h) { assert Holds(l.qdiscs, l.root.value, n, h); }
  }

  lemma MarksOn(l: Link, n: nat, bad: set<nat>)
    requires RootMq(l) && n < |l.qdiscs[l.root.value].children|
    requires Occupant(l, n).Some? ==> Occupant(l, n).value in l.qdiscs
    ensures Marks(l, n + 1, bad) ==
            match Occupant(l, n)
            case Some(h) => Marks(l, n, bad)[h := l.qdiscs[h].(mark := Eligible(l, bad, n))]
            case None => Marks(l, n, bad)
  {
    forall h | h in l.qdiscs
      ensures Marked(l, n + 1, bad, h) ==
              if Occupant(l, n) == Some(h) then Eligible(l, bad, n) else Marked(l, n, bad, h)
    {
      AtRootOn(l, n, h);
    }
  }

  /** Levels and actions of the firmware are what link l asks for. */
  ghost predicate Programmed(l: Link, f: Faults, base: nat, queues: nat,
                             was: seq<nat>, now: seq<nat>, wasActs: seq<Action>, nowActs: seq<Action>) {
    |now| == |was| && |nowActs| == |wasActs|
    && (forall id :: 0 <= id < |was| ==> now[id] == LevelAfter(l, f, base, queues, id, was[id]))
    && (forall id :: 0 <= id < |wasActs| ==> nowActs[id] == ActionAfter(l, f, base, queues, id, wasActs[id]))
  }

  lemma LeftUndefined(l: Link, bad: set<nat>, base: nat, queues: nat, numBands: nat, id: nat)
    requires id < numBands * MAX_RX_RINGS
    ensures id in CompiledUndef(l, bad, base, queues, Owned(base, queues, numBands)) <==>
            Owns(base, queues, id) && !Eligible(l, bad, RingOf(id) - base)
  {
  }

  lemma ResetLevel(l: Link, f: Faults, base: nat, queues: nat, numBands: nat, was: seq<nat>, id: nat)
    requires |was| == numBands * MAX_RX_RINGS && id < |was|
    ensures var undef := CompiledUndef(l, f.stats, base, queues, Owned(base, queues, numBands));
            Reset(CompiledLevels(l, f, base, queues, was), undef, f.levels, |was|)[id] ==
            LevelAfter(l, f, base, queues, id, was[id])
  {
    LeftUndefined(l, f.stats, base, queues, numBands, id);
  }

  lemma ResetProgrammed(l: Link, f: Faults, base: nat, queues: nat, numBands: nat, was: seq<nat>, wasActs: seq<Action>)
    requires |was| == |wasActs| == numBands * MAX_RX_RINGS
    ensures var undef := CompiledUndef(l, f.stats, base, queues, Owned(base, queues, numBands));
            Programmed(l, f, base, queues,
                       was, Reset(CompiledLevels(l, f, base, queues, was), undef, f.levels, |was|),
                       wasActs, CompiledActions(l, f, base, queues, wasActs))
  {
    forall id | 0 <= id < |was|
      ensures Reset(CompiledLevels(l, f, base, queues, was),
                    CompiledUndef(l, f.stats, base, queues, Owned(base, queues, numBands)), f.levels, |was|)[id] ==
              LevelAfter(l, f, base, queues, id, was[id])
    {
      ResetLevel(l, f, base, queues, numBands, was, id);
    }
    forall id | 0 <= id < |wasActs|
      ensures CompiledActions(l, f, base, queues, wasActs)[id] == ActionAfter(l, f, base, queues, id, wasActs[id])
    {
    }
  }

  /** What compiling one more queue does to what was compiled so far. */
  lemma CompiledOn(l: Link, f: Faults, base: nat, n: nat, numBands: nat, was: seq<nat>, wasActs: seq<Action>,
                   undef: set<nat>,
                   levels: seq<nat>, actions: seq<Action>, left: set<nat>)
    requires |was| == |wasActs| == numBands * MAX_RX_RINGS && numBands <= MAX_DPS && Below(undef, |was|)
    requires levels == CompiledLevels(l, f, base, n, was) && actions == CompiledActions(l, f, base, n, wasActs)
    requires left == CompiledUndef(l, f.stats, base, n, undef)
    requires Eligible(l, f.stats, n) ==> |BandsAt(l, f.stats, n)| == MAX_DPS
    ensures Eligible(l, f.stats, n) ==>
              var bands := BandsAt(l, f.stats, n);
              CompiledLevels(l, f, base, n + 1, was) == Filled(levels, base + n, Levels(bands), f.levels, numBands)
              && CompiledActions(l, f, base, n + 1, wasActs)
                 == Filled(actions, base + n, Actions(bands), f.actions, numBands)
              && CompiledUndef(l, f.stats, base, n + 1, undef) == Defined(left, base + n, numBands)
    ensures !Eligible(l, f.stats, n) ==>
              CompiledLevels(l, f, base, n + 1, was) == levels && CompiledActions(l, f, base, n + 1, wasActs) == actions
              && CompiledUndef(l, f.stats, base, n + 1, undef) == left
  {
    LevelsOn(l, f, base, n, numBands, was);
    ActionsOn(l, f, base, n, numBands, wasActs);
    UndefOn(l, f.stats, base, n, numBands, undef);
  }

  // ---- a link ----

  class AbmLink {
    const abm: Abm
    const caps: Caps
    const base: nat
    var qdiscs: Qdiscs
    var root: Option<nat>
    var hasPrio: bool

    ghost function State(): Link
      reads this
    {
      Link(qdiscs, root, hasPrio)
    }

    /** Everything but the hierarchy. */
    ghost predicate Ready()
      reads this, abm, abm.thresholds, abm.actions, abm.levels, abm.acts
    {
      abm.Valid() && base + caps.queues <= MAX_RX_RINGS && caps.numBands == abm.numBands
    }

    constructor (abm: Abm, caps: Caps, base: nat)
      requires abm.Valid() && base + caps.queues <= MAX_RX_RINGS && caps.numBands == abm.numBands
      ensures this.abm == abm && this.caps == caps && this.base == base && Ready() && State() == NEW_LINK
    {
      this.abm, this.caps, this.base := abm, caps, base;
      qdiscs, root, hasPrio := map[], None, false;
    }

    /** nfp_abm_offload_compile_red() for queue `queue` of a link that was l but for its marks. */
    method CompileRed(h: nat, queue: nat, f: Faults, ghost l: Link)
      requires Ready() && queue < caps.queues && hasPrio == l.hasPrio
      requires Occupant(l, queue) == Some(h) && OccupantShaped(caps, l, queue)
      requires h in qdiscs && qdiscs[h] == l.qdiscs[h].(mark := qdiscs[h].mark)
      modifies this, abm, abm.thresholds, abm.levels, abm.actions, abm.acts
      ensures Ready() && root == old(root) && hasPrio == old(hasPrio)
      ensures qdiscs == old(qdiscs)[h := l.qdiscs[h].(mark := Eligible(l, f.stats, queue))]
      ensures Eligible(l, f.stats, queue) ==>
                var bands := BandsAt(l, f.stats, queue);
                |bands| == MAX_DPS
                && abm.thresholds[..]
                   == Filled(old(abm.thresholds[..]), base + queue, Levels(bands), f.levels, abm.numBands)
                && abm.actions[..]
                   == Filled(old(abm.actions[..]), base + queue, Actions(bands), f.actions, abm.numBands)
                && abm.undef == Defined(old(abm.undef), base + queue, abm.numBands)
      ensures !Eligible(l, f.stats, queue) ==>
                abm.thresholds[..] == old(abm.thresholds[..]) && abm.actions[..] == old(abm.actions[..])
                && abm.undef == old(abm.undef)
    {
      var mark := MarkRed(h, queue, f, l);
      if mark {
        abm.ProgramRing(base + queue, qdiscs[h].bands, f);
      }
    }

    /** Decides whether a RED or GRED is eligible, and marks it. */
    method MarkRed(h: nat, queue: nat, f: Faults, ghost l: Link) returns (mark: bool)
      requires hasPrio == l.hasPrio && Occupant(l, queue) == Some(h) && OccupantShaped(caps, l, queue)
      requires h in qdiscs && qdiscs[h] == l.qdiscs[h].(mark := qdiscs[h].mark)
      modifies this`qdiscs
      ensures mark == Eligible(l, f.stats, queue)
      ensures qdiscs == old(qdiscs)[h := l.qdiscs[h].(mark := mark)]
    {
      var q := qdiscs[h];
      var goodRed := q.kind == Red && q.paramsOk && q.useCnt == 1 && !hasPrio && q.children[0] == Empty;
      var goodGred := q.kind == Gred && q.paramsOk && q.useCnt == 1;
      mark := goodRed || goodGred;
      if mark && !q.offloaded && h in f.stats {
        mark := false;
      }
      qdiscs := qdiscs[h := q.(mark := mark)];
    }

    /** The first n queues of l have been compiled. */
    ghost predicate Progress(l: Link, f: Faults, n: nat, was: seq<nat>, wasActs: seq<Action>, undef: set<nat>)
      reads this, abm, abm.thresholds, abm.actions, abm.levels, abm.acts
    {
      Ready() && State() == l.(qdiscs := Marks(l, n, f.stats))
      && |was| == |wasActs| == abm.numBands * MAX_RX_RINGS && Below(undef, |was|)
      && abm.thresholds[..] == CompiledLevels(l, f, base, n, was)
      && abm.actions[..] == CompiledActions(l, f, base, n, wasActs)
      && abm.undef == CompiledUndef(l, f.stats, base, n, undef)
    }

    /** One turn of the loop of nfp_abm_offload_compile_mq(). */
    method CompileQueue(i: nat, f: Faults,
                        ghost l: Link, ghost was: seq<nat>, ghost wasActs: seq<Action>, ghost undef: set<nat>)
      requires Progress(l, f, i, was, wasActs, undef) && i < caps.queues
      requires RootMq(l) && |l.qdiscs[l.root.value].children| == caps.queues && OccupantShaped(caps, l, i)
      modifies this, abm, abm.thresholds, abm.levels, abm.actions, abm.acts
      ensures Progress(l, f, i + 1, was, wasActs, undef)
    {
      var child := qdiscs[root.value].children[i];
      if child.Child? {
        CompileOccupied(child.handle, i, f, l, was, wasActs, undef);
      } else {
        SkipQueue(i, f, l, was, wasActs, undef);
      }
    }

    lemma SkipQueue(i: nat, f: Faults, l: Link, was: seq<nat>, wasActs: seq<Action>, undef: set<nat>)
      requires Progress(l, f, i, was, wasActs, undef) && i < caps.queues && Occupant(l, i).None?
      requires RootMq(l) && |l.qdiscs[l.root.value].children| == caps.queues && OccupantShaped(caps, l, i)
      ensures Progress(l, f, i + 1, was, wasActs, undef)
    {
      MarksOn(l, i, f.stats);
      CompiledOn(l, f, base, i, abm.numBands, was, wasActs, undef, abm.thresholds[..], abm.actions[..], abm.undef);
    }

    method CompileOccupied(h: nat, i: nat, f: Faults,
                           ghost l: Link, ghost was: seq<nat>, ghost wasActs: seq<Action>, ghost undef: set<nat>)
      requires Progress(l, f, i, was, wasActs, undef) && i < caps.queues && Occupant(l, i) == Some(h)
      requires RootMq(l) && |l.qdiscs[l.root.value].children| == caps.queues && OccupantShaped(caps, l, i)
      modifies this, abm, abm.thresholds, abm.levels, abm.actions, abm.acts
      ensures Progress(l, f, i + 1, was, wasActs, undef)
    {
      CompiledOn(l, f, base, i, abm.numBands, was, wasActs, undef, abm.thresholds[..], abm.actions[..], abm.undef);
      CompileRed(h, i, f, l);
      MarksOn(l, i, f.stats);
    }

    method CompileQueues(f: Faults,
                         ghost l: Link, ghost was: seq<nat>, ghost wasActs: seq<Action>, ghost undef: set<nat>)
      requires Progress(l, f, 0, was, wasActs, undef)
      requires RootMq(l) && Sound(caps, l)
      modifies this, abm, abm.thresholds, abm.levels, abm.actions, abm.acts
      ensures Progress(l, f, caps.queues, was, wasActs, undef)
    {
      var i := 0;
      while i < caps.queues
        invariant 0 <= i <= caps.queues && Progress(l, f, i, was, wasActs, undef)
      {
        CompileQueue(i, f, l, was, wasActs, undef);
        i := i + 1;
      }
    }

    /** nfp_abm_offload_compile_mq(), with l the link before its marks were cleared. */
    method CompileMq(f: Faults, ghost l: Link)
      requires Ready() && Sound(caps, l) && State() == l.(qdiscs := Unmarked(l.qdiscs)) && root.Some?
      requires Below(abm.undef, abm.numBands * MAX_RX_RINGS)
      modifies this, abm, abm.thresholds, abm.levels, abm.actions, abm.acts
      ensures Progress(l, f, caps.queues, old(abm.thresholds[..]), old(abm.actions[..]), old(abm.undef))
    {
      var m := root.value;
      ghost var was, wasActs, undef := abm.thresholds[..], abm.actions[..], abm.undef;
      qdiscs := qdiscs[m := qdiscs[m].(mark := qdiscs[m].kind == Mq)];
      if qdiscs[m].kind == Mq {
        MarksStart(l, f.stats);
        CompiledStart(l, f, base, was, wasActs, undef);
        CompileQueues(f, l, was, wasActs, undef);
      } else {
        NothingMarked(l, caps.queues, f.stats);
        NothingCompiled(l, f, base, caps.queues, was, wasActs, undef);
      }
    }

    method Compile(f: Faults, ghost l: Link)
      requires Ready() && Sound(caps, l) && State() == l.(qdiscs := Unmarked(l.qdiscs))
      requires Below(abm.undef, abm.numBands * MAX_RX_RINGS)
      modifies this, abm, abm.thresholds, abm.levels, abm.actions, abm.acts
      ensures Progress(l, f, caps.queues, old(abm.thresholds[..]), old(abm.actions[..]), old(abm.undef))
    {
      if root.Some? {
        CompileMq(f, l);
      } else {
        NothingMarked(l, caps.queues, f.stats);
        NothingCompiled(l, f, base, caps.queues, abm.thresholds[..], abm.actions[..], abm.undef);
      }
    }

    method ClearMarks()
      modifies this`qdiscs
      ensures qdiscs == Unmarked(old(qdiscs))
    {
      var todo := qdiscs.Keys;
      while todo != {}
        invariant todo <= qdiscs.Keys == old(qdiscs).Keys
        invariant forall h :: h in qdiscs ==>
                    qdiscs[h] == if h in todo then old(qdiscs)[h] else old(qdiscs)[h].(mark := false)
        decreases |todo|
      {
        var h :| h in todo;
        qdiscs := qdiscs[h := qdiscs[h].(mark := false)];
        todo := todo - {h};
      }
    }

    /** The loop that makes the marked qdiscs the offloaded ones. */
    method RefreshStatus()
      modifies this`qdiscs
      ensures qdiscs == Offloaded(old(qdiscs))
    {
      var todo := qdiscs.Keys;
      while todo != {}
        invariant todo <= qdiscs.Keys == old(qdiscs).Keys
        invariant forall h :: h in qdiscs ==>
                    qdiscs[h] == if h in todo then old(qdiscs)[h] else old(qdiscs)[h].(offloaded := old(qdiscs)[h].mark)
        decreases |todo|
      {
        var h :| h in todo;
        qdiscs := qdiscs[h := qdiscs[h].(offloaded := qdiscs[h].mark)];
        todo := todo - {h};
      }
    }

    /** nfp_abm_qdisc_offload_update() */
    method OffloadUpdate(f: Faults)
      requires Ready() && Sound(caps, State()) && abm.undef == {}
      modifies this, abm, abm.thresholds, abm.levels, abm.actions, abm.acts
      ensures Ready() && abm.undef == {} && State() == Refreshed(old(State()), caps.queues, f.stats)
      ensures Programmed(old(State()), f, base, caps.queues,
                         old(abm.thresholds[..]), abm.thresholds[..], old(abm.actions[..]), abm.actions[..])
    {
      ghost var l, was, wasActs := State(), abm.thresholds[..], abm.actions[..];
      abm.MarkUndefined(base, caps.queues);
      ClearMarks();
      Compile(f, l);
      RefreshStatus();
      RefreshedByMarks(l, caps.queues, f.stats);
      abm.ResetUndefined(f.levels);
      ResetProgrammed(l, f, base, caps.queues, abm.numBands, was, wasActs);
    }

    // ---- the notifications ----

    /** nfp_abm_qdisc_unlink_children() for all slots of h */
    method UnlinkChildren(h: nat)
      requires h in qdiscs && AllTracked(qdiscs, h)
      modifies this`qdiscs
      ensures qdiscs == UnlinkFrom(old(qdiscs), h, 0)
    {
      var i, n := 0, |qdiscs[h].children|;
      while i < n
        invariant 0 <= i <= n && h in qdiscs && |qdiscs[h].children| == n && AllTracked(qdiscs, h)
        invariant UnlinkFrom(qdiscs, h, i) == UnlinkFrom(old(qdiscs), h, 0)
      {
        UnlinkOnly(qdiscs, h, i);
        assert UnlinkFrom(qdiscs, h, i) == UnlinkFrom(Unlink(qdiscs, h, i), h, i + 1);
        var slot := qdiscs[h].children[i];
        if slot.Child? {
          qdiscs := qdiscs[slot.handle := qdiscs[slot.handle].(useCnt := qdiscs[slot.handle].useCnt - 1)];
          qdiscs := qdiscs[h := qdiscs[h].(children := qdiscs[h].children[i := Empty])];
        }
        i := i + 1;
      }
    }

    /** nfp_abm_qdisc_clear_mq(): returns whether it warns about uses it could not account for. */
    method ClearMqSlots(h: nat, skip: bool) returns (warned: bool)
      requires h in qdiscs
      modifies this`qdiscs
      ensures qdiscs == if old(qdiscs)[h].useCnt == 0 || skip then old(qdiscs) else ClearMq(old(qdiscs), h)
      ensures warned <==> old(qdiscs)[h].useCnt != 0 && !skip
                          && old(qdiscs)[h].useCnt != |MqSlots(old(qdiscs), h, old(qdiscs).Keys)|
    {
      if qdiscs[h].useCnt == 0 || skip {
        return false;
      }
      ghost var was := qdiscs;
      var todo, mqRefs := qdiscs.Keys, 0;
      PartClearEnds(was, h);
      while todo != {}
        invariant todo <= was.Keys && qdiscs == PartClear(was, h, todo)
        invariant mqRefs == |MqSlots(was, h, was.Keys - todo)|
        decreases |todo|
      {
        var p :| p in todo;
        PartClearOn(was, h, todo, p);
        MqSlotsOn(was, h, todo, p);
        if qdiscs[p].kind == Mq {
          var children, refs := ClearChildren(qdiscs[p].children, h);
          qdiscs := qdiscs[p := qdiscs[p].(children := children)];
          mqRefs := mqRefs + refs;
        }
        todo := todo - {p};
      }
      assert was.Keys - todo == was.Keys;
      warned := qdiscs[h].useCnt != mqRefs;
    }

    ghost predicate Valid()
      reads this, abm, abm.thresholds, abm.actions, abm.levels, abm.acts
    {
      Ready() && abm.undef == {} && Inv(caps, State())
    }

    /** If offload_update() ran and saw link l, the firmware now has what l asks for; if it did not run
        the firmware is as before. */
    ghost predicate Settled(seen: Option<Link>, f: Faults, was: seq<nat>, wasActs: seq<Action>)
      reads this, abm, abm.thresholds, abm.actions
    {
      match seen
      case None => abm.thresholds[..] == was && abm.actions[..] == wasActs
      case Some(l) =>
        State() == Refreshed(l, caps.queues, f.stats)
        && Programmed(l, f, base, caps.queues, was, abm.thresholds[..], wasActs, abm.actions[..])
    }

    method Relink(h: nat, id: nat, child: nat)
      requires h in qdiscs && id < |qdiscs[h].children| && Tracked(qdiscs, qdiscs[h].children[id])
      modifies this`qdiscs
      ensures qdiscs == Linked(Unlink(old(qdiscs), h, id), h, id, child)
    {
      var slot := qdiscs[h].children[id];
      if slot.Child? {
        qdiscs := qdiscs[slot.handle := qdiscs[slot.handle].(useCnt := qdiscs[slot.handle].useCnt - 1)];
        qdiscs := qdiscs[h := qdiscs[h].(children := qdiscs[h].children[id := Empty])];
      }
      if child in qdiscs {
        qdiscs := qdiscs[child := qdiscs[child].(useCnt := qdiscs[child].useCnt + 1)];
        qdiscs := qdiscs[h := qdiscs[h].(children := qdiscs[h].children[id := Child(child)])];
      } else {
        qdiscs := qdiscs[h := qdiscs[h].(children := qdiscs[h].children[id := Untracked])];
      }
    }

    method MoveRoot(h: nat)
      requires root.Some? ==> root.value in qdiscs
      modifies this`qdiscs, this`root
      ensures State() == Rooted(Unrooted(old(State())), h)
    {
      if root.Some? {
        qdiscs := qdiscs[root.value := qdiscs[root.value].(useCnt := qdiscs[root.value].useCnt - 1)];
      }
      root := if h in qdiscs then Some(h) else None;
      if root.Some? {
        qdiscs := qdiscs[h := qdiscs[h].(useCnt := qdiscs[h].useCnt + 1)];
      }
    }

    /** nfp_abm_qdisc_graft() */
    method DoGraft(h: nat, child: nat, id: nat, f: Faults) returns (err: int, ghost seen: Option<Link>)
      requires Valid()
      modifies this, abm, abm.thresholds, abm.levels, abm.actions, abm.acts
      ensures Valid() && State() == Step(caps, old(State()), Graft(h, child, id), f.stats)
      ensures Settled(seen, f, old(abm.thresholds[..]), old(abm.actions[..]))
      ensures err == if h in old(qdiscs) && id >= |old(qdiscs)[h].children| then EINVAL else 0
      ensures seen.Some? <==> h in old(qdiscs) && err == 0
    {
      err, seen := 0, None;
      if h !in qdiscs {
        return;
      }
      if id >= |qdiscs[h].children| {
        err := EINVAL;
        return;
      }
      ghost var l := State();
      GraftSound(caps, l, h, child, id);
      Relink(h, id, child);
      seen := Some(State());
      OffloadUpdate(f);
      GraftedKeeps(caps, l, h, child, id, f.stats);
    }

    /** nfp_abm_setup_root() */
    method DoSetRoot(h: nat, ingress: bool, f: Faults) returns (err: int, ghost seen: Option<Link>)
      requires Valid()
      modifies this, abm, abm.thresholds, abm.levels, abm.actions, abm.acts
      ensures Valid() && State() == Step(caps, old(State()), SetRoot(h, ingress), f.stats)
      ensures Settled(seen, f, old(abm.thresholds[..]), old(abm.actions[..]))
      ensures err == (if ingress then EOPNOTSUPP else 0) && (seen.Some? <==> !ingress)
    {
      err, seen := EOPNOTSUPP, None;
      if ingress {
        return;
      }
      ghost var l := State();
      RootSound(caps, l, h);
      MoveRoot(h);
      seen := Some(State());
      OffloadUpdate(f);
      RootSetKeeps(caps, l, h, ingress, f.stats);
      err := 0;
    }

    /** The part of nfp_abm_qdisc_destroy() up to the release of the qdisc. */
    method Forget(h: nat, unregistering: bool) returns (warned: bool)
      requires h in qdiscs && AllTracked(qdiscs, h)
      modifies this`qdiscs
      ensures var qs := Emptied(old(State()), h).qdiscs;
              h in qs && qdiscs == Freed(qs, h, Skips(old(State()), h, unregistering))
              && (warned <==> qs[h].useCnt != 0 && !Skips(old(State()), h, unregistering)
                              && qs[h].useCnt != |MqSlots(qs, h, qs.Keys)|)
    {
      ghost var l := State();
      var skip := unregistering && root == Some(h) && qdiscs[h].kind == Mq;
      if root == Some(h) {
        qdiscs := qdiscs[h := qdiscs[h].(useCnt := qdiscs[h].useCnt - 1)];
      }
      UnlinkChildren(h);
      assert qdiscs == Emptied(l, h).qdiscs;
      warned := ClearMqSlots(h, skip);
      qdiscs := qdiscs - {h};
    }

    method DestroyKnown(h: nat, unregistering: bool, f: Faults) returns (warned: bool, ghost seen: Option<Link>)
      requires Ready() && abm.undef == {} && h in qdiscs && CanDestroy(caps, State(), h, unregistering)
      modifies this, abm, abm.thresholds, abm.levels, abm.actions, abm.acts
      ensures Ready() && abm.undef == {}
      ensures State() == Destroyed(caps, old(State()), h, unregistering, f.stats)
      ensures Settled(seen, f, old(abm.thresholds[..]), old(abm.actions[..]))
      ensures !warned && (seen.Some? <==> old(root) == Some(h))
    {
      seen := None;
      warned := Forget(h, unregistering);
      if root == Some(h) {
        root := None;
        seen := Some(State());
        OffloadUpdate(f);
      }
    }

    /** nfp_abm_qdisc_destroy(): it never warns about a use count. */
    method DoDestroy(h: nat, unregistering: bool, f: Faults) returns (warned: bool, ghost seen: Option<Link>)
      requires Valid() && MayDestroy(State(), h, unregistering)
      modifies this, abm, abm.thresholds, abm.levels, abm.actions, abm.acts
      ensures Valid() && State() == Step(caps, old(State()), Destroy(h, unregistering), f.stats)
      ensures Settled(seen, f, old(abm.thresholds[..]), old(abm.actions[..]))
      ensures !warned && (seen.Some? <==> h in old(qdiscs) && old(root) == Some(h))
    {
      ghost var l := State();
      DestroyedKeeps(caps, l, h, unregistering, f.stats);
      warned, seen := false, None;
      if h in qdiscs {
        DestroySound(caps, l, h, unregistering);
        warned, seen := DestroyKnown(h, unregistering, f);
      }
    }

    /** nfp_abm_qdisc_replace() */
    method FindOrAlloc(k: Kind, h: nat, noMem: bool) returns (err: int)
      modifies this`qdiscs
      ensures (err, qdiscs) == Found(caps, old(qdiscs), k, h, noMem)
    {
      if h in qdiscs {
        return if qdiscs[h].kind != k then EINVAL else 0;
      }
      if noMem {
        return ENOMEM;
      }
      qdiscs := qdiscs[h := Fresh(caps, k)];
      return 0;
    }

    /** nfp_abm_mq_create() */
    method DoMqCreate(h: nat, noMem: bool, f: Faults) returns (err: int, ghost seen: Option<Link>)
      requires Valid()
      modifies this, abm, abm.thresholds, abm.levels, abm.actions, abm.acts
      ensures Valid() && State() == Step(caps, old(State()), MqCreate(h, noMem), f.stats)
      ensures Settled(seen, f, old(abm.thresholds[..]), old(abm.actions[..]))
      ensures err == Found(caps, old(qdiscs), Mq, h, noMem).0 && (seen.Some? <==> err == 0)
    {
      ghost var l := State();
      seen := None;
      err := FindOrAlloc(Mq, h, noMem);
      if err != 0 {
        return;
      }
      CreateSound(caps, l, h, noMem);
      qdiscs := qdiscs[h := qdiscs[h].(paramsOk := true, offloaded := true)];
      seen := Some(State());
      OffloadUpdate(f);
      CreateMqKeeps(caps, l, h, noMem, f.stats);
    }

    method ResetChild(h: nat, limit: bool, isNew: bool)
      requires RedReady(qdiscs, h)
      modifies this`qdiscs
      ensures qdiscs == RedChild(old(qdiscs), h, limit, isNew)
    {
      if limit {
        var slot := qdiscs[h].children[0];
        if slot.Child? {
          qdiscs := qdiscs[slot.handle := qdiscs[slot.handle].(useCnt := qdiscs[slot.handle].useCnt - 1)];
        }
        qdiscs := qdiscs[h := qdiscs[h].(children := qdiscs[h].children[0 := Empty])];
        assert qdiscs[h].children[0 := Empty] == qdiscs[h].children;
      } else if isNew {
        qdiscs := qdiscs[h := qdiscs[h].(children := qdiscs[h].children[0 := Untracked])];
      }
    }

    /** The part of nfp_abm_red_replace() before the offload is refreshed. */
    method ConfigureRed(h: nat, limit: bool, p: RedParams, noMem: bool) returns (err: int)
      requires h in qdiscs && qdiscs[h].kind == Red ==> RedReady(qdiscs, h)
      modifies this`qdiscs
      ensures (err, State()) == RedConfigured(caps, old(State()), h, limit, p, noMem)
    {
      var isNew := h !in qdiscs;
      err := FindOrAlloc(Red, h, noMem);
      if err != 0 {
        return;
      }
      ResetChild(h, limit, isNew);
      var q := qdiscs[h].(paramsOk := RedOk(caps, p));
      if q.paramsOk {
        q := q.(numBands := 1, bands := q.bands[0 := Band(p.ecn, p.min)]);
      }
      qdiscs := qdiscs[h := q];
    }

    /** nfp_abm_red_replace() */
    method DoRedReplace(h: nat, limit: bool, p: RedParams, noMem: bool, f: Faults)
      returns (err: int, ghost seen: Option<Link>)
      requires Valid()
      modifies this, abm, abm.thresholds, abm.levels, abm.actions, abm.acts
      ensures Valid() && State() == Step(caps, old(State()), RedReplace(h, limit, p, noMem), f.stats)
      ensures Settled(seen, f, old(abm.thresholds[..]), old(abm.actions[..]))
      ensures err == Found(caps, old(qdiscs), Red, h, noMem).0
      ensures seen.Some? <==> err == 0 && h in qdiscs && qdiscs[h].useCnt == 1
    {
      ghost var l := State();
      ReplaceRedKeeps(caps, l, h, limit, p, noMem, f.stats);
      RedSound(caps, l, h, limit, p, noMem);
      seen := None;
      err := ConfigureRed(h, limit, p, noMem);
      if err == 0 && qdiscs[h].useCnt == 1 {
        seen := Some(State());
        OffloadUpdate(f);
      }
    }

    /** The classifier starts or stops using priorities (src/abm/cls.c). */
    method DoPrioChange(prio: bool, f: Faults) returns (ghost seen: Link)
      requires Valid()
      modifies this, abm, abm.thresholds, abm.levels, abm.actions, abm.acts
      ensures Valid() && State() == Step(caps, old(State()), PrioChange(prio), f.stats)
      ensures seen == old(State()).(hasPrio := prio)
      ensures Settled(Some(seen), f, old(abm.thresholds[..]), old(abm.actions[..]))
    {
      PrioSteps(caps, State(), prio, f.stats);
      hasPrio := prio;
      seen := State();
      OffloadUpdate(f);
    }

    /** The part of nfp_abm_gred_replace() before the offload is refreshed. */
    method ConfigureGred(h: nat, p: GredParams, noMem: bool) returns (err: int)
      requires caps.numBands <= |p.tab| && caps.numBands <= MAX_DPS
      requires h in qdiscs ==> |qdiscs[h].bands| == MAX_DPS
      modifies this`qdiscs
      ensures (err, State()) == GredConfigured(caps, old(State()), h, p, noMem)
    {
      err := FindOrAlloc(Gred, h, noMem);
      if err != 0 {
        return;
      }
      var ok := CheckGred(caps, p);
      var q := qdiscs[h].(paramsOk := ok);
      if ok {
        var bands := SetBands(q.bands, p.tab, caps.numBands);
        q := q.(numBands := caps.numBands, bands := bands);
      }
      qdiscs := qdiscs[h := q];
    }

    /** nfp_abm_gred_replace() */
    method DoGredReplace(h: nat, p: GredParams, noMem: bool, f: Faults) returns (err: int, ghost seen: Option<Link>)
      requires Valid() && caps.numBands <= |p.tab|
      modifies this, abm, abm.thresholds, abm.levels, abm.actions, abm.acts
      ensures Valid() && State() == Step(caps, old(State()), GredReplace(h, p, noMem), f.stats)
      ensures Settled(seen, f, old(abm.thresholds[..]), old(abm.actions[..]))
      ensures err == Found(caps, old(qdiscs), Gred, h, noMem).0
      ensures seen.Some? <==> err == 0 && h in qdiscs && qdiscs[h].useCnt != 0
    {
      ghost var l := State();
      ReplaceGredKeeps(caps, l, h, p, noMem, f.stats);
      GredSound(caps, l, h, p, noMem);
      seen := None;
      err := ConfigureGred(h, p, noMem);
      if err == 0 && qdiscs[h].useCnt != 0 {
        seen := Some(State());
        OffloadUpdate(f);
      }
    }
  }

  /** The loop of nfp_abm_gred_replace() over the bands. */
  method SetBands(was: seq<Band>, tab: seq<GredBand>, n: nat) returns (bands: seq<Band>)
    requires n <= |was| && n <= |tab|
    ensures bands == GredBands(was, tab, n)
  {
    bands := was;
    var i := 0;
    while i < n
      invariant 0 <= i <= n && |bands| == |was|
      invariant forall k :: 0 <= k < |was| ==>
                  bands[k] == if k < i then Band(tab[k].red.ecn, tab[k].red.min) else was[k]
    {
      bands := bands[i := Band(tab[i].red.ecn, tab[i].red.min)];
      i := i + 1;
    }
  }

  /** nfp_abm_gred_check_params() */
  method CheckGred(c: Caps, p: GredParams) returns (ok: bool)
    requires c.numBands <= |p.tab|
    ensures ok == GredOk(c, p)
  {
    if p.grio || p.wred || p.dpDef != c.defBand || p.dpCnt != c.numBands {
      return false;
    }
    var i := 0;
    while i < c.numBands
      invariant 0 <= i <= c.numBands
      invariant forall j :: 0 <= j < i ==> p.tab[j].present && RedOk(c, p.tab[j].red)
    {
      var band := p.tab[i];
      if !band.present || (!band.red.ecn && !c.drop) || (band.red.ecn && !c.marking) || band.red.harddrop {
        return false;
      }
      if band.red.min != band.red.max || band.red.min > INFINITY {
        return false;
      }
      i := i + 1;
    }
    return true;
  }

  lemma RedSound(c: Caps, l: Link, h: nat, limit: bool, p: RedParams, noMem: bool)
    requires Inv(c, l)
    ensures h in l.qdiscs && l.qdiscs[h].kind == Red ==> RedReady(l.qdiscs, h)
    ensures Sound(c, RedConfigured(c, l, h, limit, p, noMem).1)
  {
    RedConfiguredKeeps(c, l, h, limit, p, noMem);
    BaseSound(c, RedConfigured(c, l, h, limit, p, noMem).1);
  }

  lemma GredSound(c: Caps, l: Link, h: nat, p: GredParams, noMem: bool)
    requires Inv(c, l) && c.numBands <= |p.tab| && c.numBands <= MAX_DPS
    ensures var (err, qs) := Found(c, l.qdiscs, Gred, h, noMem);
            err == 0 ==> |qs[h].bands| == MAX_DPS && Sound(c, SetUp(l, qs[h := GredParamsSet(c, qs[h], p)]))
  {
    var (err, qs) := Found(c, l.qdiscs, Gred, h, noMem);
    FoundKeeps(c, l, Gred, h, noMem);
    if err == 0 {
      GredParamsKeep(c, SetUp(l, qs), h, p);
      BaseSound(c, SetUp(l, qs[h := GredParamsSet(c, qs[h], p)]));
    }
  }

  lemma CreateSound(c: Caps, l: Link, h: nat, noMem: bool)
    requires Inv(c, l) && Found(c, l.qdiscs, Mq, h, noMem).0 == 0
    ensures var qs := Found(c, l.qdiscs, Mq, h, noMem).1;
            Sound(c, SetUp(l, qs[h := qs[h].(paramsOk := true, offloaded := true)]))
  {
    var qs := Found(c, l.qdiscs, Mq, h, noMem).1;
    FoundKeeps(c, l, Mq, h, noMem);
    TouchBase(c, SetUp(l, qs), h, qs[h].(paramsOk := true, offloaded := true));
    BaseSound(c, SetUp(l, qs[h := qs[h].(paramsOk := true, offloaded := true)]));
  }

  lemma OnlyMqMeansAll(qs: Qdiscs, h: nat)
    requires OnlyMqSlots(qs, h)
    ensures MqSlots(qs, h, qs.Keys) == SlotsTo(qs, h)
  {
    forall s | s in SlotsTo(qs, h) ensures s in MqSlots(qs, h, qs.Keys) { assert Holds(qs, s.0, s.1, h); }
  }

  /** What destroying h relies on. */
  ghost predicate CanDestroy(c: Caps, l: Link, h: nat, unregistering: bool)
    requires h in l.qdiscs
  {
    var l1 := Emptied(l, h);
    AllTracked(l.qdiscs, h) && l1.qdiscs[h].useCnt == |MqSlots(l1.qdiscs, h, l1.qdiscs.Keys)|
    && Sound(c, SetUp(l1, Freed(l1.qdiscs, h, Skips(l, h, unregistering))))
  }

  lemma DestroySound(c: Caps, l: Link, h: nat, unregistering: bool)
    requires Inv(c, l) && h in l.qdiscs && MayDestroy(l, h, unregistering)
    ensures CanDestroy(c, l, h, unregistering)
  {
    TrackedAll(l.qdiscs, h);
    var l1 := Emptied(l, h);
    EmptiedBase(c, l, h);
    OnlyMqLeft(c, l, h, unregistering);
    OnlyMqMeansAll(l1.qdiscs, h);
    FreedBase(c, l, h, unregistering);
    BaseSound(c, SetUp(l1, Freed(l1.qdiscs, h, Skips(l, h, unregistering))));
  }

  lemma RootSound(c: Caps, l: Link, h: nat)
    requires Inv(c, l)
    ensures Sound(c, Rooted(Unrooted(l), h))
  {
    UnrootedBase(c, l);
    RootedBase(c, Unrooted(l), h);
    BaseSound(c, Rooted(Unrooted(l), h));
  }

  lemma GraftSound(c: Caps, l: Link, h: nat, child: nat, id: nat)
    requires Inv(c, l) && h in l.qdiscs && id < |l.qdiscs[h].children|
    ensures Tracked(l.qdiscs, l.qdiscs[h].children[id])
    ensures Sound(c, SetUp(l, Linked(Unlink(l.qdiscs, h, id), h, id, child)))
  {
    UnlinkBase(c, l, h, id);
    LinkedBase(c, SetUp(l, Unlink(l.qdiscs, h, id)), h, id, child);
    BaseSound(c, SetUp(l, Linked(Unlink(l.qdiscs, h, id), h, id, child)));
  }

  /** clear_mq() with the qdiscs in `todo` still to be visited. */
  function PartClear(qs: Qdiscs, h: nat, todo: set<nat>): (r: Qdiscs)
    ensures r.Keys == qs.Keys
  {
    map p: nat | p in qs :: if p in todo then qs[p] else ClearMq(qs, h)[p]
  }

  lemma PartClearEnds(qs: Qdiscs, h: nat)
    ensures PartClear(qs, h, qs.Keys) == qs && PartClear(qs, h, {}) == ClearMq(qs, h)
    ensures MqSlots(qs, h, qs.Keys - qs.Keys) == {}
  {
  }

  lemma PartClearOn(qs: Qdiscs, h: nat, todo: set<nat>, p: nat)
    requires p in qs && p in todo
    ensures var r := PartClear(qs, h, todo);
            r[p] == qs[p]
            && PartClear(qs, h, todo - {p}) ==
               if qs[p].kind == Mq then r[p := qs[p].(children := Cleared(qs[p].children, h))] else r
  {
  }

  method ClearChildren(children: seq<Slot>, h: nat) returns (r: seq<Slot>, refs: nat)
    ensures r == Cleared(children, h) && refs == |SlotsIn(children, h, |children|)|
  {
    r, refs := children, 0;
    var i := 0;
    while i < |children|
      invariant 0 <= i <= |children| && r == PartCleared(children, h, i)
      invariant refs == |SlotsIn(children, h, i)|
    {
      SlotsInOn(children, h, i);
      PartClearedOn(children, h, i);
      if r[i] == Child(h) {
        r, refs := r[i := Empty], refs + 1;
      }
      i := i + 1;
    }
  }

  /** The slots that hold h in the MQs among `ps`. */
  ghost function MqSlots(qs: Qdiscs, h: nat, ps: set<nat>): set<(nat, nat)> {
    set s | s in SlotsTo(qs, h) && s.0 in ps && qs[s.0].kind == Mq
  }

  function Pairs(p: nat, xs: set<nat>): set<(nat, nat)> { set i | i in xs :: (p, i) }

  lemma {:induction false} PairsSize(p: nat, xs: set<nat>)
    ensures |Pairs(p, xs)| == |xs|
  {
    if xs == {} {
      assert Pairs(p, xs) == {};
    } else {
      var x :| x in xs;
      PairsSize(p, xs - {x});
      assert Pairs(p, xs) == Pairs(p, xs - {x}) + {(p, x)};
    }
  }

  lemma MqSlotsSplit(qs: Qdiscs, h: nat, ps: set<nat>, p: nat)
    requires p in qs && p !in ps
    ensures MqSlots(qs, h, ps + {p}) ==
            MqSlots(qs, h, ps)
            + (if qs[p].kind == Mq then Pairs(p, SlotsIn(qs[p].children, h, |qs[p].children|)) else {})
  {
    var here := if qs[p].kind == Mq then Pairs(p, SlotsIn(qs[p].children, h, |qs[p].children|)) else {};
    forall s | s in MqSlots(qs, h, ps + {p}) ensures s in MqSlots(qs, h, ps) + here {
      assert Holds(qs, s.0, s.1, h);
    }
    forall s | s in here ensures s in MqSlots(qs, h, ps + {p}) { assert Holds(qs, s.0, s.1, h); }
  }

  lemma MqSlotsOn(qs: Qdiscs, h: nat, todo: set<nat>, p: nat)
    requires p in qs && p in todo
    ensures |MqSlots(qs, h, qs.Keys - (todo - {p}))| ==
            |MqSlots(qs, h, qs.Keys - todo)|
            + (if qs[p].kind == Mq then |SlotsIn(qs[p].children, h, |qs[p].children|)| else 0)
  {
    var ps := qs.Keys - todo;
    assert qs.Keys - (todo - {p}) == ps + {p};
    MqSlotsSplit(qs, h, ps, p);
    if qs[p].kind == Mq {
      var xs := SlotsIn(qs[p].children, h, |qs[p].children|);
      PairsSize(p, xs);
      assert MqSlots(qs, h, ps) !! Pairs(p, xs);
    }
  }

  /** The first n slots that hold h. */
  function SlotsIn(children: seq<Slot>, h: nat, n: nat): set<nat>
    requires n <= |children|
  {
    set i: nat | i < n && children[i] == Child(h)
  }

  lemma SlotsInOn(children: seq<Slot>, h: nat, n: nat)
    requires n < |children|
    ensures SlotsIn(children, h, n + 1) == SlotsIn(children, h, n) + (if children[n] == Child(h) then {n} else {})
    ensures n !in SlotsIn(children, h, n)
  {
  }

  /** The first n slots have been cleared. */
  function PartCleared(children: seq<Slot>, h: nat, n: nat): (r: seq<Slot>)
    ensures |r| == |children|
  {
    seq(|children|, i requires 0 <= i < |children| => if i < n && children[i] == Child(h) then Empty else children[i])
  }

  lemma PartClearedOn(children: seq<Slot>, h: nat, n: nat)
    requires n < |children|
    ensures PartCleared(children, h, n)[n] == children[n]
    ensures var r := PartCleared(children, h, n);
            PartCleared(children, h, n + 1) == if children[n] == Child(h) then r[n := Empty] else r
  {
  }

  function Offloaded(qs: Qdiscs): (r: Qdiscs)
    ensures r.Keys == qs.Keys
  {
    map h: nat | h in qs :: qs[h].(offloaded := qs[h].mark)
  }

  lemma RefreshedByMarks(l: Link, queues: nat, bad: set<nat>)
    ensures Offloaded(Marks(l, queues, bad)) == Refreshed(l, queues, bad).qdiscs
  {
  }

  lemma CompiledStart(l: Link, f: Faults, base: nat, was: seq<nat>, wasActs: seq<Action>, undef: set<nat>)
    ensures CompiledLevels(l, f, base, 0, was) == was && CompiledActions(l, f, base, 0, wasActs) == wasActs
    ensures CompiledUndef(l, f.stats, base, 0, undef) == undef
  {
  }

  lemma NothingCompiled(l: Link, f: Faults, base: nat, n: nat, was: seq<nat>, wasActs: seq<Action>, undef: set<nat>)
    requires !RootMq(l)
    ensures CompiledLevels(l, f, base, n, was) == was && CompiledActions(l, f, base, n, wasActs) == wasActs
    ensures CompiledUndef(l, f.stats, base, n, undef) == undef
  {
  }

  predicate OccupantShaped(c: Caps, l: Link, n: nat) {
    Occupant(l, n).Some? ==>
      Occupant(l, n).value in l.qdiscs && Shaped(c, l.qdiscs[Occupant(l, n).value])
  }

  /** All that compiling needs to know about a link. */
  ghost predicate Sound(c: Caps, l: Link) {
    (l.root.Some? ==> l.root.value in l.qdiscs)
    && (RootMq(l) ==> |l.qdiscs[l.root.value].children| == c.queues)
    && forall i: nat :: i < c.queues ==> OccupantShaped(c, l, i)
  }

  lemma BaseSound(c: Caps, l: Link)
    requires Base(c, l)
    ensures Sound(c, l)
  {
    forall i: nat | i < c.queues ensures OccupantShaped(c, l, i) {
      if Occupant(l, i).Some? { assert Holds(l.qdiscs, l.root.value, i, Occupant(l, i).value); }
    }
  }

  lemma PrioSteps(c: Caps, l: Link, prio: bool, bad: set<nat>)
    requires Inv(c, l) && c.numBands <= MAX_DPS
    ensures var r := l.(hasPrio := prio);
            Sound(c, r) && Inv(c, Refreshed(r, c.queues, bad))
            && Step(c, l, PrioChange(prio), bad) == Refreshed(r, c.queues, bad)
  {
    PrioBase(c, l, prio);
    RefreshedInv(c, l.(hasPrio := prio), bad);
    BaseSound(c, l.(hasPrio := prio));
  }

  lemma PrioBase(c: Caps, l: Link, prio: bool)
    requires Inv(c, l)
    ensures Base(c, l.(hasPrio := prio))
  {
    var r := l.(hasPrio := prio);
    assert r.qdiscs == l.qdiscs && r.root == l.root;
  }

  /** The firmware, read by band and ring: rings of the link have the level of the qdisc at that queue or
      infinity, rings of other links keep theirs. */
  lemma ProgrammedAt(l: Link, f: Faults, base: nat, queues: nat, numBands: nat, was: seq<nat>, now: seq<nat>,
                     wasActs: seq<Action>, nowActs: seq<Action>, band: nat, ring: nat)
    requires Programmed(l, f, base, queues, was, now, wasActs, nowActs)
    requires |was| == numBands * MAX_RX_RINGS && band < numBands && ring < MAX_RX_RINGS
    requires f.levels == {}
    ensures IdOf(band, ring) < |was|
    ensures now[IdOf(band, ring)] ==
            if base <= ring < base + queues then WantedLevel(l, f.stats, ring - base, band) else was[IdOf(band, ring)]
  {
    IdParts(band, ring);
    IdBelow(band, ring, numBands);
    var id := IdOf(band, ring);
    assert now[id] == LevelAfter(l, f, base, queues, id, was[id]);
  }

  lemma IdBelow(band: nat, ring: nat, numBands: nat)
    requires band < numBands && ring < MAX_RX_RINGS
    ensures IdOf(band, ring) < numBands * MAX_RX_RINGS
  {
  }
}

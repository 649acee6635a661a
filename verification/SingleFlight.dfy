/**
 Single-flight submission as the interleaving of its steps: claiming a key under the lock, handing the job to the
 executor outside it, the job's own start and end, and the return of each call.
 */
module SingleFlight {
  import opened Text

  type Key = Text

  /** Where a submission that claimed its key stands. */
  datatype Phase = Handing | Queued | Running

  /**
   `live` has the submissions that claimed a key and neither ended nor were refused; `returning` those the executor
   took whose call has not returned yet. The counters are history.
   */
  datatype Machine = Machine(
    inflight: set<Key>,
    live: map<nat, (Key, Phase)>,
    returning: set<nat>,
    next: nat,
    trueReturns: nat,
    finished: nat)

  const IDLE := Machine({}, map[], {}, 0, 0, 0)

  datatype Step =
    | Submit(key: Key)
    | Accept(id: nat)
    | Refuse(id: nat)
    | ReturnTrue(id: nat)
    | Start(id: nat)
    | Finish(id: nat, failed: bool)

  predicate InPhase(m: Machine, id: nat, p: Phase) {
    id in m.live && m.live[id].1 == p
  }

  /** Whether the step answers false: the key is already in flight. */
  predicate Coalesces(m: Machine, s: Step) {
    s.Submit? && s.key in m.inflight
  }

  /** A step that cannot be taken changes nothing. A job may run, and end, before its submission has returned. */
  function Do(m: Machine, s: Step): Machine {
    match s
    case Submit(k) =>
      if k in m.inflight then m
      else m.(inflight := m.inflight + {k}, live := m.live[m.next := (k, Handing)], next := m.next + 1)
    case Accept(id) =>
      if !InPhase(m, id, Handing) then m
      else m.(live := m.live[id := (m.live[id].0, Queued)], returning := m.returning + {id})
    case Refuse(id) =>
      if !InPhase(m, id, Handing) then m
      else m.(inflight := m.inflight - {m.live[id].0}, live := m.live - {id})
    case ReturnTrue(id) =>
      if id !in m.returning then m else m.(returning := m.returning - {id}, trueReturns := m.trueReturns + 1)
    case Start(id) =>
      if !InPhase(m, id, Queued) then m else m.(live := m.live[id := (m.live[id].0, Running)])
    case Finish(id, _) =>
      if !InPhase(m, id, Running) then m
      else
        m.(inflight := m.inflight - {m.live[id].0}, live := m.live - {id}, finished := m.finished + 1)
  }

  function Run(steps: seq<Step>, n: nat): Machine
    requires n <= |steps|
  {
    if n == 0 then IDLE else Do(Run(steps, n - 1), steps[n - 1])
  }

  /** Jobs the executor has taken and not finished. */
  function Outstanding(m: Machine): set<nat> {
    set id | id in m.live && m.live[id].1 != Handing
  }

  /** The keys in flight are exactly those of live submissions, and no two of these share one. */
  ghost predicate Consistent(m: Machine) {
    && (forall k :: k in m.inflight <==> exists id :: id in m.live && m.live[id].0 == k)
    && (forall i, j | i in m.live && j in m.live && i != j :: m.live[i].0 != m.live[j].0)
    && (forall id | id in m.live :: id < m.next)
    && (forall id | id in m.returning :: id < m.next && !InPhase(m, id, Handing))
    && m.trueReturns + |m.returning| == m.finished + |Outstanding(m)|
  }

  lemma KeyHeld(m: Machine, id: nat)
    requires Consistent(m) && id in m.live
    ensures m.live[id].0 in m.inflight
  {
  }

  lemma SubmitKeeps(m: Machine, k: Key)
    requires Consistent(m)
    ensures Consistent(Do(m, Submit(k)))
  {
    if k !in m.inflight {
      var m' := Do(m, Submit(k));
      forall id | id in m.live ensures m.live[id].0 != k {
        KeyHeld(m, id);
      }
      forall q ensures q in m'.inflight <==> exists id :: id in m'.live && m'.live[id].0 == q {
        if q in m'.inflight {
          if q == k {
            assert m'.live[m.next].0 == q;
          } else {
            var id :| id in m.live && m.live[id].0 == q;
            assert m'.live[id].0 == q;
          }
        }
      }
      assert Outstanding(m') == Outstanding(m);
    }
  }

  /** Changing the phase of one submission keeps which keys are held. */
  lemma SameKeys(m: Machine, id: nat, p: Phase)
    requires Consistent(m) && id in m.live
    ensures var live' := m.live[id := (m.live[id].0, p)];
      && (forall k :: k in m.inflight <==> exists i :: i in live' && live'[i].0 == k)
      && (forall i, j | i in live' && j in live' && i != j :: live'[i].0 != live'[j].0)
  {
    var live' := m.live[id := (m.live[id].0, p)];
    forall k | k in m.inflight ensures exists i :: i in live' && live'[i].0 == k {
      var i :| i in m.live && m.live[i].0 == k;
      assert live'[i].0 == k;
    }
    forall i | i in live' ensures live'[i].0 in m.inflight {
      assert i in m.live;
    }
  }

  /** Ending one submission frees exactly its key. */
  lemma KeyFreed(m: Machine, id: nat)
    requires Consistent(m) && id in m.live
    ensures var live', inflight' := m.live - {id}, m.inflight - {m.live[id].0};
      && (forall k :: k in inflight' <==> exists i :: i in live' && live'[i].0 == k)
      && (forall i, j | i in live' && j in live' && i != j :: live'[i].0 != live'[j].0)
  {
    var live', inflight' := m.live - {id}, m.inflight - {m.live[id].0};
    forall k | k in inflight' ensures exists i :: i in live' && live'[i].0 == k {
      var i :| i in m.live && m.live[i].0 == k;
      assert i in live' && live'[i].0 == k;
    }
    forall i | i in live' ensures live'[i].0 in inflight' {
      assert i in m.live && i != id;
    }
  }

  lemma AcceptKeeps(m: Machine, id: nat)
    requires Consistent(m)
    ensures Consistent(Do(m, Accept(id)))
  {
    if InPhase(m, id, Handing) {
      SameKeys(m, id, Queued);
      assert Outstanding(Do(m, Accept(id))) == Outstanding(m) + {id};
    }
  }

  lemma RefuseKeeps(m: Machine, id: nat)
    requires Consistent(m)
    ensures Consistent(Do(m, Refuse(id)))
  {
    if InPhase(m, id, Handing) {
      KeyFreed(m, id);
      assert Outstanding(Do(m, Refuse(id))) == Outstanding(m);
    }
  }

  lemma StartKeeps(m: Machine, id: nat)
    requires Consistent(m)
    ensures Consistent(Do(m, Start(id)))
  {
    if InPhase(m, id, Queued) {
      SameKeys(m, id, Running);
      assert Outstanding(Do(m, Start(id))) == Outstanding(m);
    }
  }

  lemma FinishKeeps(m: Machine, id: nat, failed: bool)
    requires Consistent(m)
    ensures Consistent(Do(m, Finish(id, failed)))
  {
    if InPhase(m, id, Running) {
      KeyFreed(m, id);
      assert Outstanding(Do(m, Finish(id, failed))) == Outstanding(m) - {id};
    }
  }

  lemma ReturnKeeps(m: Machine, id: nat)
    requires Consistent(m)
    ensures Consistent(Do(m, ReturnTrue(id)))
  {
    assert Outstanding(Do(m, ReturnTrue(id))) == Outstanding(m);
  }

  lemma DoKeeps(m: Machine, s: Step)
    requires Consistent(m)
    ensures Consistent(Do(m, s))
  {
    match s
    case Submit(k) => SubmitKeeps(m, k);
    case Accept(id) => AcceptKeeps(m, id);
    case Refuse(id) => RefuseKeeps(m, id);
    case ReturnTrue(id) => ReturnKeeps(m, id);
    case Start(id) => StartKeeps(m, id);
    case Finish(id, failed) => FinishKeeps(m, id, failed);
  }

  lemma {:induction false} RunConsistent(steps: seq<Step>, n: nat)
    requires n <= |steps|
    ensures Consistent(Run(steps, n))
  {
    if n > 0 {
      RunConsistent(steps, n - 1);
      DoKeeps(Run(steps, n - 1), steps[n - 1]);
    } else {
      assert Outstanding(IDLE) == {};
    }
  }

  // ---------- the main results ----------

  /** In every interleaving a key has at most one outstanding job. */
  lemma OneJobPerKey(steps: seq<Step>, n: nat, i: nat, j: nat)
    requires n <= |steps| && i in Outstanding(Run(steps, n)) && j in Outstanding(Run(steps, n))
    requires Run(steps, n).live[i].0 == Run(steps, n).live[j].0
    ensures i == j
  {
    RunConsistent(steps, n);
  }

  /** Submissions that returned true are the finished and the outstanding jobs, but for calls still returning. */
  lemma TrueSubmitsAccounted(steps: seq<Step>, n: nat)
    requires n <= |steps|
    ensures var m := Run(steps, n);
      && m.trueReturns + |m.returning| == m.finished + |Outstanding(m)|
      && (m.returning == {} ==> m.trueReturns == m.finished + |Outstanding(m)|)
  {
    RunConsistent(steps, n);
  }

  /** A submission answers false exactly when an earlier submission still holds its key. */
  lemma CoalescedExactlyWhenHeld(steps: seq<Step>, n: nat)
    requires n < |steps| && steps[n].Submit?
    ensures var m := Run(steps, n);
      && (Coalesces(m, steps[n]) <==> exists id :: id in m.live && m.live[id].0 == steps[n].key)
      && (Coalesces(m, steps[n]) ==> Run(steps, n + 1) == m)
      && (!Coalesces(m, steps[n]) ==> InPhase(Run(steps, n + 1), m.next, Handing))
  {
    RunConsistent(steps, n);
  }

  /** With nothing in flight nothing is live, and the other way round. */
  lemma IdleExactly(m: Machine)
    requires Consistent(m)
    ensures m.inflight == {} <==> m.live == map[]
  {
    if m.inflight == {} {
      forall id ensures id !in m.live {
        if id in m.live {
          KeyHeld(m, id);
        }
      }
    }
  }

  /** `wait_for_idle` reports idleness when nothing is in flight: then no job is outstanding, and none is on its way. */
  lemma IdleMeansNothingOutstanding(steps: seq<Step>, n: nat)
    requires n <= |steps|
    ensures Run(steps, n).inflight == {} <==> Run(steps, n).live == map[]
    ensures Run(steps, n).inflight == {} ==> Outstanding(Run(steps, n)) == {}
  {
    RunConsistent(steps, n);
    IdleExactly(Run(steps, n));
  }

  /** The step ends the submission: the executor refuses it, or its running job ends. */
  predicate Ends(m: Machine, s: Step, id: nat) {
    || (s == Refuse(id) && InPhase(m, id, Handing))
    || (s.Finish? && s.id == id && InPhase(m, id, Running))
  }

  /** A key is released whatever becomes of its job: success, failure or refusal. */
  lemma EndingReleasesKey(steps: seq<Step>, n: nat, id: nat)
    requires n < |steps| && Ends(Run(steps, n), steps[n], id)
    ensures !Coalesces(Run(steps, n + 1), Submit(Run(steps, n).live[id].0))
  {
  }

  /** A claimed submission is taken, runs and ends in that order, holding its key throughout; its call returns once. */
  lemma SubmissionAdvances(m: Machine, id: nat, failed: bool)
    requires Consistent(m) && id in m.live
    ensures var k := m.live[id].0;
      && (InPhase(m, id, Handing) ==>
            InPhase(Do(m, Accept(id)), id, Queued) && id in Do(m, Accept(id)).returning && k in Do(m, Accept(id)).inflight)
      && (InPhase(m, id, Queued) ==> InPhase(Do(m, Start(id)), id, Running) && k in Do(m, Start(id)).inflight)
      && (InPhase(m, id, Running) ==>
            && id !in Do(m, Finish(id, failed)).live && k !in Do(m, Finish(id, failed)).inflight
            && Do(m, Finish(id, failed)).finished == m.finished + 1)
      && (id in m.returning ==>
            id !in Do(m, ReturnTrue(id)).returning && Do(m, ReturnTrue(id)).trueReturns == m.trueReturns + 1)
  {
    KeyHeld(m, id);
  }

  // ---------- the revalidator ----------

  /** The guarded set, with the machine it is the visible part of. */
  class SingleFlightRevalidator {
    var inflight: set<Key>
    ghost var machine: Machine

    ghost predicate Valid()
      reads this
    {
      inflight == machine.inflight && Consistent(machine)
    }

    constructor ()
      ensures Valid() && machine == IDLE
    {
      inflight := {};
      machine := IDLE;
      new;
      assert Outstanding(IDLE) == {};
    }

    /** The first critical section of `submit`. */
    method Claim(key: Key) returns (claimed: bool)
      requires Valid()
      modifies this
      ensures Valid() && machine == Do(old(machine), Step.Submit(key))
      ensures claimed <==> !Coalesces(old(machine), Step.Submit(key))
    {
      DoKeeps(machine, Step.Submit(key));
      machine := Do(machine, Step.Submit(key));
      if key in inflight {
        return false;
      }
      inflight := inflight + {key};
      return true;
    }

    /** `discard`, when a job ends or the executor refuses it. */
    method Release(key: Key, ghost s: Step, ghost id: nat)
      requires Valid() && Ends(machine, s, id) && key == machine.live[id].0
      modifies this
      ensures Valid() && machine == Do(old(machine), s)
    {
      DoKeeps(machine, s);
      machine := Do(machine, s);
      inflight := inflight - {key};
    }

    /** What the executor and the returning calls do besides: nothing that the guarded set shows. */
    ghost method Unseen(s: Step)
      requires Valid() && (s.Accept? || s.Start? || s.ReturnTrue?)
      modifies this`machine
      ensures Valid() && machine == Do(old(machine), s)
    {
      DoKeeps(machine, s);
      machine := Do(machine, s);
    }

    /** `submit` without interruption; `None` where the executor's refusal is raised again. */
    method Submit(key: Key, taken: bool) returns (answer: Option<bool>)
      requires Valid()
      modifies this
      ensures Valid()
      ensures answer == if key in old(inflight) then Some(false) else if taken then Some(true) else None
      ensures var claimed, id := Do(old(machine), Step.Submit(key)), old(machine).next;
        machine == if key in old(inflight) then old(machine)
                   else if taken then Do(Do(claimed, Accept(id)), ReturnTrue(id))
                   else Do(claimed, Refuse(id))
    {
      ghost var id := machine.next;
      var claimed := Claim(key);
      if !claimed {
        return Some(false);
      }
      if !taken {
        Release(key, Refuse(id), id);
        return None;
      }
      Unseen(Accept(id));
      Unseen(ReturnTrue(id));
      return Some(true);
    }

    /** The end of `guarded`, whether the work returned or raised. */
    method EndJob(key: Key, ghost id: nat, failed: bool)
      requires Valid() && InPhase(machine, id, Running) && key == machine.live[id].0
      modifies this
      ensures Valid() && machine == Do(old(machine), Finish(id, failed))
    {
      Release(key, Finish(id, failed), id);
    }

    /** What `wait_for_idle` waits for: nothing in flight, which means nothing live. */
    method IsIdle() returns (idle: bool)
      requires Valid()
      ensures idle <==> machine.live == map[]
    {
      IdleExactly(machine);
      idle := inflight == {};
    }
  }
}

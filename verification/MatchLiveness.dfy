/** In a fair run of the busy/wait protocol without exceptions every call of `findMatch` returns. */
module MatchLiveness {
  import opened MatchProtocol

  /** An endless interleaving of the threads' steps. */
  ghost predicate Forever<P(!new)>(trace: nat -> State<P>, steps: nat -> Step<P>) {
    forall i: nat :: Next(trace(i), steps(i), trace(i + 1))
  }

  /** A thread inside `findMatch` can take this step. */
  ghost predicate Ready<P>(s: State<P>, step: Step<P>) {
    match step
    case Build(t) => t in s.threads && s.threads[t].pc.Building? && s.threads[t].pc.o in s.objects
    case Finish(t) =>
      && t in s.threads && s.threads[t].pc.Building? && s.threads[t].pc.o in s.objects
      && s.objects[s.threads[t].pc.o].built
    case Resume(t) => t in s.threads && s.threads[t].pc.Awake? && s.threads[t].pc.o in s.objects
    case _ => false
  }

  /** Readiness is enabledness. */
  lemma ReadyIff<P(!new)>(s: State<P>, step: Step<P>)
    requires step.Build? || step.Finish? || step.Resume?
    ensures Ready(s, step) <==> exists s' :: Next(s, step, s')
  {
    if Ready(s, step) {
      match step
      case Build(t) =>
        var o := s.threads[t].pc.o;
        assert Next(s, step, s.(objects := s.objects[o := s.objects[o].(built := true)]));
      case Finish(t) => assert Next(s, step, Finished(s, t, s.threads[t].pc.o));
      case Resume(t) =>
        var o := s.threads[t].pc.o;
        assert Next(s, step, if s.objects[o].busy then Wait(s, t, o) else Return(s, t, o));
    }
  }

  /** The step is not put off for ever while it can be taken. */
  ghost predicate Fair<P(!new)>(trace: nat -> State<P>, steps: nat -> Step<P>, step: Step<P>) {
    forall i: nat :: Eventually(trace, steps, step, i)
  }

  /** At i or later it is taken or cannot be. */
  ghost predicate Eventually<P(!new)>(trace: nat -> State<P>, steps: nat -> Step<P>, step: Step<P>, i: nat) {
    exists j: nat :: i <= j && TakenOrNot(trace, steps, step, j)
  }

  ghost predicate TakenOrNot<P(!new)>(trace: nat -> State<P>, steps: nat -> Step<P>, step: Step<P>, j: nat) {
    Ready(trace(j), step) ==> steps(j) == step
  }

  /** A fair run from the start in which no build throws. */
  ghost predicate FairRun<P(!new)>(trace: nat -> State<P>, steps: nat -> Step<P>) {
    && Forever(trace, steps) && Init(trace(0)) && (forall i: nat :: !steps(i).Throw?)
    && forall t :: Fair(trace, steps, Build(t)) && Fair(trace, steps, Finish(t)) && Fair(trace, steps, Resume(t))
  }

  lemma {:induction false} AlwaysInv<P(!new)>(trace: nat -> State<P>, steps: nat -> Step<P>, i: nat)
    requires FairRun(trace, steps)
    ensures Inv(trace(i)) && BuildersStay(trace(i))
  {
    hide Inv, BuildersStay, Next, Fair, Init;
    if i == 0 {
      InitInv(trace(0));
    } else {
      AlwaysInv(trace, steps, i - 1);
      assert Next(trace(i - 1), steps(i - 1), trace(i - 1 + 1)) && !steps(i - 1).Throw?;
      NextInv(trace(i - 1), steps(i - 1), trace(i));
      NextBuilders(trace(i - 1), steps(i - 1), trace(i));
    }
  }

  lemma StepAt<P(!new)>(trace: nat -> State<P>, steps: nat -> Step<P>, i: nat)
    requires FairRun(trace, steps)
    ensures Next(trace(i), steps(i), trace(i + 1)) && !steps(i).Throw? && OneBuilder(trace(i)) && ThreadsOk(trace(i))
  {
    hide Next, Fair, Init;
    AlwaysInv(trace, steps, i);
  }

  // ----- While the builder works -----

  ghost predicate BuiltIn<P>(s: State<P>, o: Oid) { o in s.objects && s.objects[o].built }

  /** Thread b builds o, and t is b or waits for o. */
  ghost predicate Pending<P>(s: State<P>, b: Tid, t: Tid, o: Oid) {
    && b in s.threads && s.threads[b].pc == Building(o) && o in s.objects && s.objects[o].busy
    && t in s.threads && (t == b || s.threads[t].pc == Asleep(o) || s.threads[t].pc == Awake(o))
  }

  /** Only the builder's last step ends this, and what has been built stays built. */
  lemma PendingNext<P>(s: State<P>, step: Step<P>, s': State<P>, b: Tid, t: Tid, o: Oid)
    requires Pending(s, b, t, o) && Next(s, step, s') && !step.Throw? && step != Finish(b) && OneBuilder(s)
    ensures Pending(s', b, t, o) && (BuiltIn(s, o) ==> BuiltIn(s', o))
  {}

  lemma {:induction false} PendingUntil<P(!new)>(trace: nat -> State<P>, steps: nat -> Step<P>, i: nat, j: nat,
                                                 b: Tid, t: Tid, o: Oid)
    returns (k: nat)
    requires FairRun(trace, steps) && i <= j && Pending(trace(i), b, t, o)
    ensures i <= k <= j && Pending(trace(k), b, t, o) && (k == j || steps(k) == Finish(b))
    ensures BuiltIn(trace(i), o) ==> BuiltIn(trace(k), o)
    decreases j - i
  {
    hide Pending, BuiltIn, Next, FairRun, OneBuilder, ThreadsOk;
    if i == j || steps(i) == Finish(b) {
      k := i;
    } else {
      StepAt(trace, steps, i);
      PendingNext(trace(i), steps(i), trace(i + 1), b, t, o);
      k := PendingUntil(trace, steps, i + 1, j, b, t, o);
    }
  }

  /** Fairness to one step of one thread, from i on. */
  lemma FairTo<P(!new)>(trace: nat -> State<P>, steps: nat -> Step<P>, step: Step<P>, i: nat) returns (j: nat)
    requires FairRun(trace, steps) && (step.Build? || step.Finish? || step.Resume?)
    ensures i <= j && TakenOrNot(trace, steps, step, j)
  {
    hide Forever, Init, TakenOrNot;
    assert Fair(trace, steps, step) by {
      assert Fair(trace, steps, Build(step.t)) && Fair(trace, steps, Finish(step.t));
      assert Fair(trace, steps, Resume(step.t));
    }
    assert Eventually(trace, steps, step, i);
    j :| i <= j && TakenOrNot(trace, steps, step, j);
  }

  /** The builder finishes. */
  lemma Finishes<P(!new)>(trace: nat -> State<P>, steps: nat -> Step<P>, i: nat, b: Tid, t: Tid, o: Oid)
    returns (k: nat)
    requires FairRun(trace, steps) && Pending(trace(i), b, t, o)
    ensures i <= k && Pending(trace(k), b, t, o) && steps(k) == Finish(b)
  {
    hide FairRun, OneBuilder, ThreadsOk;
    var j := FairTo(trace, steps, Build(b), i);
    k := PendingUntil(trace, steps, i, j, b, t, o);
    if steps(k) != Finish(b) {
      assert steps(k) == Build(b);
      StepAt(trace, steps, k);
      PendingNext(trace(k), steps(k), trace(k + 1), b, t, o);
      assert BuiltIn(trace(k + 1), o);
      var l := FairTo(trace, steps, Finish(b), k + 1);
      k := PendingUntil(trace, steps, k + 1, l, b, t, o);
    }
  }

  // ----- When it has finished -----

  /** The thread only has to look again. */
  ghost predicate Free<P>(s: State<P>, t: Tid, o: Oid) {
    t in s.threads && s.threads[t].pc == Awake(o) && BuiltIn(s, o) && !s.objects[o].busy
  }

  /** The thread has left with the finished object. */
  ghost predicate Back<P>(s: State<P>, t: Tid, o: Oid) {
    t in s.threads && s.threads[t].pc.Outside? && o in s.threads[t].held && BuiltIn(s, o) && !s.objects[o].busy
  }

  /** The builder's last step lets it go and sets every waiter free. */
  lemma FinishFrees<P>(s: State<P>, s': State<P>, b: Tid, t: Tid, o: Oid)
    requires Pending(s, b, t, o) && Next(s, Finish(b), s') && ThreadsOk(s)
    ensures if t == b then Back(s', t, o) else Free(s', t, o)
  {
    assert ThreadOk(s.objects, s.threads[t]);
    if t != b && s.threads[t].pc == Asleep(o) {
      FinishWakes(s, b, t, o);
    }
  }

  lemma FreeNext<P>(s: State<P>, step: Step<P>, s': State<P>, t: Tid, o: Oid)
    requires Free(s, t, o) && Next(s, step, s') && !step.Throw? && ThreadsOk(s)
    ensures if step == Resume(t) then Back(s', t, o) else Free(s', t, o)
  {
    if step.Finish? {
      assert ThreadOk(s.objects, s.threads[step.t]);
    }
  }

  lemma {:induction false} FreeUntil<P(!new)>(trace: nat -> State<P>, steps: nat -> Step<P>, i: nat, j: nat, t: Tid,
                                              o: Oid)
    returns (k: nat)
    requires FairRun(trace, steps) && i <= j && Free(trace(i), t, o)
    ensures i <= k <= j && Free(trace(k), t, o) && (k == j || steps(k) == Resume(t))
    decreases j - i
  {
    hide Free, Next, FairRun, OneBuilder, ThreadsOk;
    if i == j || steps(i) == Resume(t) {
      k := i;
    } else {
      StepAt(trace, steps, i);
      FreeNext(trace(i), steps(i), trace(i + 1), t, o);
      k := FreeUntil(trace, steps, i + 1, j, t, o);
    }
  }

  /** A free thread returns. */
  lemma FreeReturns<P(!new)>(trace: nat -> State<P>, steps: nat -> Step<P>, i: nat, t: Tid, o: Oid) returns (k: nat)
    requires FairRun(trace, steps) && Free(trace(i), t, o)
    ensures i <= k && Back(trace(k), t, o)
  {
    hide FairRun, Next, OneBuilder, ThreadsOk, Back;
    var j := FairTo(trace, steps, Resume(t), i);
    k := FreeUntil(trace, steps, i, j, t, o);
    assert steps(k) == Resume(t);
    StepAt(trace, steps, k);
    FreeNext(trace(k), steps(k), trace(k + 1), t, o);
    k := k + 1;
  }

  /** The object a thread inside `findMatch` is concerned with. */
  function Target(pc: Pc): Oid
    requires !pc.Outside?
  {
    pc.o
  }

  /** In every fair run without exceptions, every thread inside `findMatch`, whether it builds, sleeps or
      is awake, returns with its object, which is then finished. */
  lemma EveryCallReturns<P(!new)>(trace: nat -> State<P>, steps: nat -> Step<P>, i: nat, t: Tid) returns (k: nat)
    requires FairRun(trace, steps) && t in trace(i).threads && !trace(i).threads[t].pc.Outside?
    ensures i <= k && Back(trace(k), t, Target(trace(i).threads[t].pc))
  {
    hide FairRun, Next, Back, OneBuilder, LiveFound;
    var s, o := trace(i), Target(trace(i).threads[t].pc);
    AlwaysInv(trace, steps, i);
    assert ThreadOk(s.objects, s.threads[t]);
    if s.objects[o].busy {
      var b := BuilderOf(s, t, o);
      k := Finishes(trace, steps, i, b, t, o);
      StepAt(trace, steps, k);
      FinishFrees(trace(k), trace(k + 1), b, t, o);
      k := k + 1;
      if t != b {
        k := FreeReturns(trace, steps, k, t, o);
      }
    } else {
      k := FreeReturns(trace, steps, i, t, o);
    }
  }

  /** The builder of a busy object; a building thread is its own. */
  lemma BuilderOf<P>(s: State<P>, t: Tid, o: Oid) returns (b: Tid)
    requires Inv(s) && BuildersStay(s) && o in s.objects && s.objects[o].busy
    requires t in s.threads && !s.threads[t].pc.Outside? && Target(s.threads[t].pc) == o
    ensures Pending(s, b, t, o)
  {
    if s.threads[t].pc.Building? {
      b := t;
    } else {
      assert HasBuilder(s, o);
      b :| b in s.threads && s.threads[b].pc == Building(o);
    }
  }
}

/** How threads share the per-chunk result of `findMatch` (MatchArray.cpp:238-298; the same code is
    BestMatchArray.cpp:186-256). Each step is one critical section of the mutex, or the unlocked
    build in between. All waits share one event, whose signal wakes every waiter (src/util/Event.cpp)
    and which may also wake a waiter without cause. */
module MatchProtocol {

  type Tid = nat
  type Oid = nat

  /** Where a thread is: outside `findMatch`, filling the object it created, asleep in `event.wait`,
      or awake again and about to re-test `busy`. */
  datatype Pc = Outside | Building(o: Oid) | Asleep(o: Oid) | Awake(o: Oid)

  /** `held` are the results returned to the thread that it still references. */
  datatype Thread = Thread(pc: Pc, held: set<Oid>)

  /** A result object; `built` once its table is complete. */
  datatype Object<P> = Object(pos: P, busy: bool, waiting: bool, built: bool)

  /** `matches` holds weak pointers: an entry does not keep its object alive. */
  datatype State<!P> = State(objects: map<Oid, Object<P>>, matches: map<P, Oid>, threads: map<Tid, Thread>)

  function Refs(th: Thread): set<Oid> {
    match th.pc
    case Outside => th.held
    case Building(o) => th.held + {o}
    case Asleep(o) => th.held + {o}
    case Awake(o) => th.held + {o}
  }

  /** Some thread holds a strong pointer to the object. */
  ghost predicate Live<P>(s: State<P>, o: Oid) { exists t :: t in s.threads && o in Refs(s.threads[t]) }

  ghost predicate HasBuilder<P>(s: State<P>, o: Oid) { exists t :: t in s.threads && s.threads[t].pc == Building(o) }

  datatype Step<P> =
    | Enter(t: Tid, pos: P)
    | Build(t: Tid)
    | Finish(t: Tid)
    | Resume(t: Tid)
    | Spurious(t: Tid)
    | Drop(t: Tid, o: Oid)
    | Throw(t: Tid)

  // ----- Steps -----

  function SetPc<P>(s: State<P>, t: Tid, pc: Pc): State<P>
    requires t in s.threads
  {
    s.(threads := s.threads[t := s.threads[t].(pc := pc)])
  }

  /** The thread leaves `findMatch` with the object. */
  function Return<P>(s: State<P>, t: Tid, o: Oid): State<P>
    requires t in s.threads
  {
    s.(threads := s.threads[t := Thread(Outside, s.threads[t].held + {o})])
  }

  /** Wait for a busy object: note that someone waits, and sleep. */
  function Wait<P>(s: State<P>, t: Tid, o: Oid): State<P>
    requires t in s.threads && o in s.objects
  {
    SetPc(s.(objects := s.objects[o := s.objects[o].(waiting := true)]), t, Asleep(o))
  }

  /** `event.signal()`. */
  function WakeAll<P>(s: State<P>): State<P> {
    s.(threads := map t | t in s.threads ::
         if s.threads[t].pc.Asleep? then s.threads[t].(pc := Awake(s.threads[t].pc.o)) else s.threads[t])
  }

  ghost predicate Next<P>(s: State<P>, step: Step<P>, s': State<P>) {
    match step
    case Enter(t, pos) =>
      && t in s.threads && s.threads[t].pc.Outside?
      && if pos in s.matches && s.matches[pos] in s.objects && Live(s, s.matches[pos]) then
           var o := s.matches[pos];
           s' == if s.objects[o].busy then Wait(s, t, o) else Return(s, t, o)
         else
           exists o: Oid :: o !in s.objects && s' == Create(s, t, pos, o)
    case Build(t) =>
      && t in s.threads && s.threads[t].pc.Building? && s.threads[t].pc.o in s.objects
      && var o := s.threads[t].pc.o;
         s' == s.(objects := s.objects[o := s.objects[o].(built := true)])
    case Finish(t) =>
      && t in s.threads && s.threads[t].pc.Building? && s.threads[t].pc.o in s.objects
      && s.objects[s.threads[t].pc.o].built
      && s' == Finished(s, t, s.threads[t].pc.o)
    case Resume(t) =>
      && t in s.threads && s.threads[t].pc.Awake? && s.threads[t].pc.o in s.objects
      && var o := s.threads[t].pc.o;
         s' == if s.objects[o].busy then Wait(s, t, o) else Return(s, t, o)
    case Spurious(t) =>
      t in s.threads && s.threads[t].pc.Asleep? && s' == SetPc(s, t, Awake(s.threads[t].pc.o))
    case Drop(t, o) =>
      t in s.threads && s' == s.(threads := s.threads[t := s.threads[t].(held := s.threads[t].held - {o})])
    case Throw(t) =>
      t in s.threads && s.threads[t].pc.Building? && s' == SetPc(s, t, Outside)
  }

  /** No live object for the position: install a new, busy one. */
  function Create<P>(s: State<P>, t: Tid, pos: P, o: Oid): State<P>
    requires t in s.threads
  {
    SetPc(s.(objects := s.objects[o := Object(pos, true, false, false)], matches := s.matches[pos := o]),
          t, Building(o))
  }

  /** The builder's last critical section. */
  function Finished<P>(s: State<P>, t: Tid, o: Oid): State<P>
    requires t in s.threads && o in s.objects
  {
    var done := s.(objects := s.objects[o := s.objects[o].(busy := false, waiting := false)]);
    Return(if s.objects[o].waiting then WakeAll(done) else done, t, o)
  }

  ghost predicate Init<P>(s: State<P>) {
    s.objects == map[] && s.matches == map[] && forall t :: t in s.threads ==> s.threads[t] == Thread(Outside, {})
  }

  // ----- Invariant -----

  ghost predicate ObjectsOk<P>(s: State<P>) {
    && (forall o :: o in s.objects && !s.objects[o].busy ==> s.objects[o].built && !s.objects[o].waiting)
    && (forall p :: p in s.matches ==> s.matches[p] in s.objects && s.objects[s.matches[p]].pos == p)
  }

  /** A held result is complete; a builder's object is busy; a sleeper's object is busy and knows
      that someone waits. */
  ghost predicate ThreadOk<P>(objects: map<Oid, Object<P>>, th: Thread) {
    && (forall o :: o in th.held ==> o in objects && !objects[o].busy)
    && match th.pc
       case Outside => true
       case Building(o) => o in objects && objects[o].busy
       case Asleep(o) => o in objects && objects[o].busy && objects[o].waiting
       case Awake(o) => o in objects
  }

  ghost predicate ThreadsOk<P>(s: State<P>) {
    forall t :: t in s.threads ==> ThreadOk(s.objects, s.threads[t])
  }

  ghost predicate OneBuilder<P>(s: State<P>) {
    forall t, u | t in s.threads && u in s.threads && s.threads[t].pc.Building? ::
      s.threads[u].pc == s.threads[t].pc ==> t == u
  }

  /** A live object is the one its position leads to. */
  ghost predicate LiveFound<P>(s: State<P>) {
    forall o :: Live(s, o) ==> o in s.objects && s.objects[o].pos in s.matches && s.matches[s.objects[o].pos] == o
  }

  /** What every step keeps, exceptions included. */
  ghost predicate Inv<P>(s: State<P>) { ObjectsOk(s) && ThreadsOk(s) && OneBuilder(s) && LiveFound(s) }

  /** What every step but an exception in the build keeps. */
  ghost predicate BuildersStay<P>(s: State<P>) {
    forall o :: o in s.objects && s.objects[o].busy ==> HasBuilder(s, o)
  }

  lemma InitInv<P>(s: State<P>)
    requires Init(s)
    ensures Inv(s) && BuildersStay(s)
  {}

  // ----- Preservation, one thread or one object at a time -----

  /** A thread moves on with references to live objects only. */
  lemma ThreadMoves<P>(s: State<P>, t: Tid, th: Thread)
    requires Inv(s) && t in s.threads && ThreadOk(s.objects, th)
    requires forall o :: o in Refs(th) ==> Live(s, o)
    requires th.pc.Building? ==> th.pc == s.threads[t].pc
    ensures Inv(s.(threads := s.threads[t := th]))
  {
    hide ThreadOk, Refs;
    var s' := s.(threads := s.threads[t := th]);
    forall o | Live(s', o) ensures Live(s, o) {
      var u :| u in s'.threads && o in Refs(s'.threads[u]);
      if u != t {
        assert o in Refs(s.threads[u]);
      }
    }
  }

  /** The flags of an object change and every thread can live with it. */
  lemma FlagsChange<P>(s: State<P>, o: Oid, x: Object<P>)
    requires Inv(s) && o in s.objects && x.pos == s.objects[o].pos && (!x.busy ==> x.built && !x.waiting)
    requires forall t :: t in s.threads ==> ThreadOk(s.objects[o := x], s.threads[t])
    ensures Inv(s.(objects := s.objects[o := x]))
  {
    hide ThreadOk, Refs;
    var s' := s.(objects := s.objects[o := x]);
    forall q | Live(s', q) ensures Live(s, q) {
      var u :| u in s'.threads && q in Refs(s'.threads[u]);
      assert q in Refs(s.threads[u]);
    }
  }

  lemma WakeAllInv<P>(s: State<P>)
    requires Inv(s)
    ensures Inv(WakeAll(s))
  {
    var s' := WakeAll(s);
    forall o | Live(s', o) ensures Live(s, o) {
      var u :| u in s'.threads && o in Refs(s'.threads[u]);
      assert o in Refs(s.threads[u]);
    }
  }

  lemma OwnLive<P>(s: State<P>, t: Tid)
    requires t in s.threads
    ensures forall o :: o in Refs(s.threads[t]) ==> Live(s, o)
  {}

  lemma WaitInv<P>(s: State<P>, t: Tid, o: Oid)
    requires Inv(s) && t in s.threads && !s.threads[t].pc.Building?
    requires o in s.objects && s.objects[o].busy && Live(s, o)
    ensures Inv(Wait(s, t, o))
  {
    hide Live;
    var x := s.objects[o].(waiting := true);
    var s1 := s.(objects := s.objects[o := x]);
    FlagsChange(s, o, x);
    OwnLive(s1, t);
    SameLive(s, s1, o);
    ThreadMoves(s1, t, s1.threads[t].(pc := Asleep(o)));
  }

  lemma SameLive<P>(s: State<P>, s': State<P>, o: Oid)
    requires s.threads == s'.threads
    ensures Live(s, o) <==> Live(s', o)
  {}

  lemma ReturnInv<P>(s: State<P>, t: Tid, o: Oid)
    requires Inv(s) && t in s.threads && o in s.objects && !s.objects[o].busy && Live(s, o)
    ensures Inv(Return(s, t, o))
  {
    hide Live;
    OwnLive(s, t);
    ThreadMoves(s, t, Thread(Outside, s.threads[t].held + {o}));
  }

  /** A new object is not yet referenced. */
  lemma Unreferenced<P>(s: State<P>, o: Oid)
    requires Inv(s) && o !in s.objects
    ensures forall u :: u in s.threads ==> s.threads[u].pc != Building(o) && o !in Refs(s.threads[u])
  {
    hide LiveFound, OneBuilder, ObjectsOk;
    forall u | u in s.threads ensures s.threads[u].pc != Building(o) && o !in Refs(s.threads[u]) {
      assert ThreadOk(s.objects, s.threads[u]);
    }
  }

  lemma CreateLive<P>(s: State<P>, t: Tid, pos: P, o: Oid)
    requires Inv(s) && t in s.threads && s.threads[t].pc.Outside? && o !in s.objects
    requires pos in s.matches ==> !Live(s, s.matches[pos])
    ensures LiveFound(Create(s, t, pos, o))
  {
    hide ThreadsOk, OneBuilder, ObjectsOk;
    var s' := Create(s, t, pos, o);
    forall q | Live(s', q) ensures q == o || (Live(s, q) && s.objects[q].pos != pos) {
      var u :| u in s'.threads && q in Refs(s'.threads[u]);
      if q != o {
        assert q in Refs(s.threads[u]);
        assert Live(s, q);
      }
    }
  }

  lemma CreateInv<P>(s: State<P>, t: Tid, pos: P, o: Oid)
    requires Inv(s) && t in s.threads && s.threads[t].pc.Outside? && o !in s.objects
    requires pos in s.matches ==> !Live(s, s.matches[pos])
    ensures Inv(Create(s, t, pos, o))
  {
    hide LiveFound;
    Unreferenced(s, o);
    CreateLive(s, t, pos, o);
  }

  lemma BuildInv<P>(s: State<P>, t: Tid, o: Oid)
    requires Inv(s) && t in s.threads && o in s.objects
    ensures Inv(s.(objects := s.objects[o := s.objects[o].(built := true)]))
  {
    FlagsChange(s, o, s.objects[o].(built := true));
  }

  /** The builder wakes the sleepers, if there are any, and lets go of the object. */
  function Released<P>(s: State<P>, t: Tid, o: Oid): State<P>
    requires t in s.threads && o in s.objects
  {
    SetPc(if s.objects[o].waiting then WakeAll(s) else s, t, Awake(o))
  }

  lemma ReleasedInv<P>(s: State<P>, t: Tid, o: Oid)
    requires Inv(s) && t in s.threads && s.threads[t].pc == Building(o) && o in s.objects
    ensures Inv(Released(s, t, o))
    ensures forall u :: u in s.threads ==> Released(s, t, o).threads[u].pc != Asleep(o)
                                           && Released(s, t, o).threads[u].pc != Building(o)
  {
    hide Live;
    var s1 := if s.objects[o].waiting then WakeAll(s) else s;
    WakeAllInv(s);
    OwnLive(s1, t);
    ThreadMoves(s1, t, s1.threads[t].(pc := Awake(o)));
    forall u | u in s.threads ensures Released(s, t, o).threads[u].pc != Asleep(o)
                                      && Released(s, t, o).threads[u].pc != Building(o)
    {
      assert ThreadOk(s.objects, s.threads[u]);
    }
  }

  /** Finishing, seen as letting go of the object, clearing its flags and returning. */
  lemma FinishInv<P>(s: State<P>, t: Tid, o: Oid)
    requires Inv(s) && t in s.threads && s.threads[t].pc == Building(o) && o in s.objects && s.objects[o].built
    ensures Inv(Finished(s, t, o))
  {
    hide Live, Inv, OneBuilder, LiveFound, ObjectsOk, ThreadsOk;
    var s2 := Released(s, t, o);
    ReleasedInv(s, t, o);
    var x := s.objects[o].(busy := false, waiting := false);
    forall u | u in s2.threads ensures ThreadOk(s2.objects[o := x], s2.threads[u]) {
      KnownOk(s2, u);
    }
    FlagsChange(s2, o, x);
    var s3 := s2.(objects := s2.objects[o := x]);
    OwnLive(s3, t);
    ReturnInv(s3, t, o);
    assert Return(s3, t, o).threads == Finished(s, t, o).threads;
  }

  lemma KnownOk<P>(s: State<P>, t: Tid)
    requires Inv(s) && t in s.threads
    ensures ThreadOk(s.objects, s.threads[t])
  {}

  lemma NextInv<P>(s: State<P>, step: Step<P>, s': State<P>)
    requires Inv(s) && Next(s, step, s')
    ensures Inv(s')
  {
    hide Live, Inv, Wait, Return, Create, Finished;
    OwnLive(s, step.t);
    match step
    case Enter(t, pos) =>
      if pos in s.matches && s.matches[pos] in s.objects && Live(s, s.matches[pos]) {
        var o := s.matches[pos];
        if s.objects[o].busy {
          WaitInv(s, t, o);
        } else {
          ReturnInv(s, t, o);
        }
      } else {
        MatchesKnown(s);
        var o: Oid :| o !in s.objects && s' == Create(s, t, pos, o);
        CreateInv(s, t, pos, o);
      }
    case Build(t) => BuildInv(s, t, s.threads[t].pc.o);
    case Finish(t) => FinishInv(s, t, s.threads[t].pc.o);
    case Resume(t) =>
      var o := s.threads[t].pc.o;
      if s.objects[o].busy {
        WaitInv(s, t, o);
      } else {
        ReturnInv(s, t, o);
      }
    case Spurious(t) => PcMoves(s, t, Awake(s.threads[t].pc.o));
    case Drop(t, o) => Drops(s, t, o);
    case Throw(t) => PcMoves(s, t, Outside);
  }

  lemma MatchesKnown<P>(s: State<P>)
    requires Inv(s)
    ensures forall p :: p in s.matches ==> s.matches[p] in s.objects
  {}

  lemma PcMoves<P>(s: State<P>, t: Tid, pc: Pc)
    requires Inv(s) && t in s.threads && (pc.Outside? || (s.threads[t].pc.Asleep? && pc == Awake(s.threads[t].pc.o)))
    ensures Inv(SetPc(s, t, pc))
  {
    OwnLive(s, t);
    ThreadMoves(s, t, s.threads[t].(pc := pc));
  }

  lemma Drops<P>(s: State<P>, t: Tid, o: Oid)
    requires Inv(s) && t in s.threads
    ensures Inv(s.(threads := s.threads[t := s.threads[t].(held := s.threads[t].held - {o})]))
  {
    OwnLive(s, t);
    ThreadMoves(s, t, s.threads[t].(held := s.threads[t].held - {o}));
  }

  lemma NextBuilders<P>(s: State<P>, step: Step<P>, s': State<P>)
    requires Inv(s) && BuildersStay(s) && Next(s, step, s') && !step.Throw?
    ensures BuildersStay(s')
  {
    hide LiveFound, ThreadsOk, ObjectsOk;
    forall o | o in s'.objects && s'.objects[o].busy ensures HasBuilder(s', o) {
      if o in s.objects && s.objects[o].busy {
        var u :| u in s.threads && s.threads[u].pc == Building(o);
        assert u in s'.threads && s'.threads[u].pc == Building(o);
      } else {
        assert step.Enter? && s'.threads[step.t].pc == Building(o);
      }
    }
  }

  // ----- Runs -----

  /** A run from its first state: any interleaving of the threads' steps. */
  ghost predicate Run<P>(trace: seq<State<P>>, steps: seq<Step<P>>) {
    |trace| == |steps| + 1 && forall i :: 0 <= i < |steps| ==> Next(trace[i], steps[i], trace[i + 1])
  }

  lemma {:induction false} RunInv<P>(trace: seq<State<P>>, steps: seq<Step<P>>, i: nat)
    requires Run(trace, steps) && Inv(trace[0]) && i <= |steps|
    ensures Inv(trace[i])
  {
    hide Inv, Next;
    if i > 0 {
      RunInv(trace, steps, i - 1);
      NextInv(trace[i - 1], steps[i - 1], trace[i]);
    }
  }

  /** In every state of every run: one live object per position, one builder per object, no result
      in a caller's hands before it is complete, and no sleeper whose object is idle or does not
      know that someone waits. */
  lemma RunSafe<P>(trace: seq<State<P>>, steps: seq<Step<P>>, i: nat)
    requires Run(trace, steps) && Init(trace[0]) && i <= |steps|
    ensures var s := trace[i];
            && (forall o, q :: Live(s, o) && Live(s, q) ==>
                  o in s.objects && q in s.objects && (s.objects[o].pos == s.objects[q].pos ==> o == q))
            && (forall t, u :: t in s.threads && u in s.threads && s.threads[t].pc.Building? ==>
                  (s.threads[t].pc == s.threads[u].pc ==> t == u))
            && (forall t, o :: t in s.threads && o in s.threads[t].held ==>
                  o in s.objects && s.objects[o].built && !s.objects[o].busy)
            && (forall t :: t in s.threads && s.threads[t].pc.Asleep? ==>
                  var o := s.threads[t].pc.o; o in s.objects && s.objects[o].busy && s.objects[o].waiting)
  {
    InitInv(trace[0]);
    RunInv(trace, steps, i);
    var s := trace[i];
    forall t | t in s.threads ensures ThreadOk(s.objects, s.threads[t]) {}
  }

  /** As long as no build throws, every sleeper's object has a builder at work on it. */
  lemma {:induction false} RunAwakens<P>(trace: seq<State<P>>, steps: seq<Step<P>>, i: nat)
    requires Run(trace, steps) && Init(trace[0]) && i <= |steps|
    requires forall k :: 0 <= k < |steps| ==> !steps[k].Throw?
    ensures BuildersStay(trace[i])
    ensures forall t :: t in trace[i].threads && trace[i].threads[t].pc.Asleep? ==>
              HasBuilder(trace[i], trace[i].threads[t].pc.o)
  {
    hide Next, Init;
    InitInv(trace[0]);
    RunInv(trace, steps, i);
    if i > 0 {
      RunAwakens(trace, steps, i - 1);
      RunInv(trace, steps, i - 1);
      NextBuilders(trace[i - 1], steps[i - 1], trace[i]);
    }
    forall t | t in trace[i].threads && trace[i].threads[t].pc.Asleep?
      ensures HasBuilder(trace[i], trace[i].threads[t].pc.o)
    {
      KnownOk(trace[i], t);
    }
  }

  // ----- Progress -----

  /** The builder finishes and the sleeper returns with the object. */
  lemma Unblock<P>(s: State<P>, t: Tid, o: Oid) returns (trace: seq<State<P>>, steps: seq<Step<P>>)
    requires Inv(s) && t in s.threads && s.threads[t].pc == Asleep(o) && HasBuilder(s, o)
    ensures Run(trace, steps) && trace[0] == s
    ensures var last := trace[|steps|];
            t in last.threads && last.threads[t] == Thread(Outside, s.threads[t].held + {o})
            && o in last.objects && last.objects[o].built
  {
    hide Inv, Next, Finished, Return;
    KnownOk(s, t);
    var b :| b in s.threads && s.threads[b].pc == Building(o);
    var s1 := s.(objects := s.objects[o := s.objects[o].(built := true)]);
    var s2 := Finished(s1, b, o);
    FinishWakes(s1, b, t, o);
    var s3 := Return(s2, t, o);
    trace, steps := [s, s1, s2, s3], [Build(b), Finish(b), Resume(t)];
    BuildThenFinish(s, b, o);
    ResumeReturns(s2, t, o);
  }

  lemma BuildThenFinish<P>(s: State<P>, b: Tid, o: Oid)
    requires b in s.threads && s.threads[b].pc == Building(o) && o in s.objects
    ensures var s1 := s.(objects := s.objects[o := s.objects[o].(built := true)]);
            Next(s, Build(b), s1) && Next(s1, Finish(b), Finished(s1, b, o))
  {}

  lemma FinishWakes<P>(s: State<P>, b: Tid, t: Tid, o: Oid)
    requires b in s.threads && s.threads[b].pc == Building(o) && o in s.objects && s.objects[o].built
    requires t in s.threads && s.threads[t].pc == Asleep(o) && s.objects[o].waiting
    ensures var s' := Finished(s, b, o);
            t in s'.threads && s'.threads[t] == Thread(Awake(o), s.threads[t].held)
            && o in s'.objects && !s'.objects[o].busy && s'.objects[o].built
  {}

  lemma ResumeReturns<P>(s: State<P>, t: Tid, o: Oid)
    requires t in s.threads && s.threads[t].pc == Awake(o) && o in s.objects && !s.objects[o].busy
    ensures Next(s, Resume(t), Return(s, t, o)) && Return(s, t, o).objects == s.objects
    ensures Return(s, t, o).threads == s.threads[t := Thread(Outside, s.threads[t].held + {o})]
  {}

  /** A busy object without a builder, and a thread waiting for it. */
  ghost predicate Stranded<P>(s: State<P>, t: Tid, o: Oid) {
    && o in s.objects && s.objects[o].busy && !HasBuilder(s, o)
    && t in s.threads && (s.threads[t].pc == Asleep(o) || s.threads[t].pc == Awake(o))
  }

  lemma StrandedNext<P>(s: State<P>, step: Step<P>, s': State<P>, t: Tid, o: Oid)
    requires Stranded(s, t, o) && Next(s, step, s')
    ensures Stranded(s', t, o)
  {
    forall u | u in s'.threads ensures s'.threads[u].pc != Building(o) {
      assert u in s.threads && s.threads[u].pc != Building(o);
    }
  }

  lemma {:induction false} StrandedForever<P>(trace: seq<State<P>>, steps: seq<Step<P>>, t: Tid, o: Oid, i: nat)
    requires Run(trace, steps) && Stranded(trace[0], t, o) && i <= |steps|
    ensures Stranded(trace[i], t, o)
  {
    hide Stranded, Next;
    if i > 0 {
      StrandedForever(trace, steps, t, o, i - 1);
      StrandedNext(trace[i - 1], steps[i - 1], trace[i], t, o);
    }
  }

  /** Some run from s takes the thread out of `findMatch`. */
  ghost predicate CanReturn<P(!new)>(s: State<P>, t: Tid) {
    exists trace: seq<State<P>>, steps: seq<Step<P>> ::
      Run(trace, steps) && trace[0] == s && t in trace[|steps|].threads && trace[|steps|].threads[t].pc.Outside?
  }

  /** A sleeper can return if and only if its object still has a builder. */
  lemma ReturnsIff<P(!new)>(s: State<P>, t: Tid)
    requires Inv(s) && t in s.threads && s.threads[t].pc.Asleep?
    ensures CanReturn(s, t) <==> HasBuilder(s, s.threads[t].pc.o)
  {
    var o := s.threads[t].pc.o;
    KnownOk(s, t);
    if HasBuilder(s, o) {
      var trace, steps := Unblock(s, t, o);
    } else {
      forall trace: seq<State<P>>, steps: seq<Step<P>> | Run(trace, steps) && trace[0] == s
        ensures t in trace[|steps|].threads && !trace[|steps|].threads[t].pc.Outside?
      {
        StrandedForever(trace, steps, t, o, |steps|);
      }
    }
  }

  /** An exception in the build does strand a thread that already waits. */
  lemma ThrowStrands<P>(pos: P) returns (trace: seq<State<P>>, steps: seq<Step<P>>)
    ensures Run(trace, steps) && Init(trace[0]) && Stranded(trace[|steps|], 1, 0)
  {
    var s0 := State(map[], map[], map[0 := Thread(Outside, {}), 1 := Thread(Outside, {})]);
    var s1 := Create(s0, 0, pos, 0);
    var s2 := Wait(s1, 1, 0);
    var s3 := SetPc(s2, 0, Outside);
    trace, steps := [s0, s1, s2, s3], [Enter(0, pos), Enter(1, pos), Throw(0)];
    assert 0 in Refs(s1.threads[0]) && Live(s1, 0);
    assert Next(s0, Enter(0, pos), s1) && Next(s1, Enter(1, pos), s2) && Next(s2, Throw(0), s3);
  }

  // ----- Weak pointers -----

  /** What a thread holds after a step it held before, or the step was its own and gave it a live object or
      a new one. */
  lemma NewRefs<P>(s: State<P>, step: Step<P>, s': State<P>, u: Tid, o: Oid)
    requires Next(s, step, s') && u in s'.threads && o in Refs(s'.threads[u])
    ensures Live(s, o) || o !in s.objects
  {
    if u in s.threads && o in Refs(s.threads[u]) {
      assert Live(s, o);
    }
  }

  /** A dead object stays dead: a weak pointer to it never locks again. */
  lemma DeadStays<P>(s: State<P>, step: Step<P>, s': State<P>, o: Oid)
    requires Next(s, step, s') && o in s.objects && !Live(s, o)
    ensures o in s'.objects && !Live(s', o)
  {
    forall u | u in s'.threads ensures o !in Refs(s'.threads[u]) {
      if o in Refs(s'.threads[u]) {
        NewRefs(s, step, s', u, o);
      }
    }
  }

  /** In every run. */
  lemma {:induction false} RunDead<P>(trace: seq<State<P>>, steps: seq<Step<P>>, i: nat, j: nat, o: Oid)
    requires Run(trace, steps) && i <= j <= |steps| && o in trace[i].objects && !Live(trace[i], o)
    ensures o in trace[j].objects && !Live(trace[j], o)
    decreases j - i
  {
    hide Live, Next;
    if i < j {
      DeadStays(trace[i], steps[i], trace[i + 1], o);
      RunDead(trace, steps, i + 1, j, o);
    }
  }

  /** The live object of a position. */
  ghost predicate LiveAt<P>(s: State<P>, pos: P, o: Oid) { o in s.objects && Live(s, o) && s.objects[o].pos == pos }

  /** A call at a position that has a live object concerns that object: the caller has it at once if it is
      finished and waits for it otherwise. A call at any other position builds an object that did not
      exist before. */
  lemma EnterExact<P>(s: State<P>, t: Tid, pos: P, s': State<P>)
    requires Inv(s) && Next(s, Enter(t, pos), s')
    ensures forall o :: LiveAt(s, pos, o) ==>
              if s.objects[o].busy then s'.threads[t].pc == Asleep(o)
              else s'.threads[t] == Thread(Outside, s.threads[t].held + {o})
    ensures (forall o :: !LiveAt(s, pos, o)) ==>
              && s'.threads[t].pc.Building? && s'.threads[t].pc.o !in s.objects
              && LiveAt(s', pos, s'.threads[t].pc.o) && s'.objects[s'.threads[t].pc.o].busy
  {
    hide ThreadsOk, OneBuilder;
    if pos in s.matches && Live(s, s.matches[pos]) {
      assert LiveAt(s, pos, s.matches[pos]);
    }
    if forall o :: !LiveAt(s, pos, o) {
      var o := s'.threads[t].pc.o;
      assert o in Refs(s'.threads[t]);
    }
  }

  /** When the last thread that references an object drops it, the object is dead. */
  lemma DropKills<P>(s: State<P>, t: Tid, o: Oid, s': State<P>)
    requires Next(s, Drop(t, o), s') && (s.threads[t].pc.Outside? || s.threads[t].pc.o != o)
    requires forall u :: u in s.threads && u != t ==> o !in Refs(s.threads[u])
    ensures !Live(s', o) && forall q :: q != o ==> (Live(s', q) <==> Live(s, q))
  {
    forall q | q != o ensures Live(s', q) <==> Live(s, q) {
      if u :| u in s.threads && q in Refs(s.threads[u]) {
        assert q in Refs(s'.threads[u]);
      }
      if u :| u in s'.threads && q in Refs(s'.threads[u]) {
        assert q in Refs(s.threads[u]);
      }
    }
  }
}

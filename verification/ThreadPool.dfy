/**
 The prethreaded server: the main thread puts accepted descriptors into a ring
 under a mutex, worker threads wait on a condition variable and take them out.
 */
module ThreadPool {
  import opened Common
  import opened Runs

  const MAXNCLI := 32

  datatype Owner = Acceptor | Thread(w: nat)

  /** The main thread; from `Inside` to `Unlocking` it holds the mutex. */
  datatype MainPc = Accepting | Wanting(fd: int) | Inside(fd: int) | Signalling | Unlocking | Exited

  /** A worker; at `Testing` and `Leaving` it holds the mutex. */
  datatype WorkerPc = Start | Testing | Waiting | Woken | Leaving(fd: int) | Counting(fd: int) | Serving(fd: int)

  datatype Worker = Worker(pc: WorkerPc, count: nat)

  /** A descriptor left the ring, in the hands of a worker. */
  datatype Take = Take(fd: int, worker: nat)

  /** `conns` is what `accept` returned, `accepted` what was put into the ring, `taken` what left it. */
  datatype State = State(
    clifd: seq<int>, iget: int, iput: int, mutex: Option<Owner>,
    main: MainPc, workers: seq<Worker>, conns: seq<int>, accepted: seq<int>, taken: seq<Take>)

  ghost predicate Init(s: State) {
    && |s.clifd| == MAXNCLI && s.iget == s.iput == 0 && s.mutex == None && s.main == Accepting
    && s.conns == [] && s.accepted == [] && s.taken == []
    && forall w :: 0 <= w < |s.workers| ==> s.workers[w] == Worker(Start, 0)
  }

  // ----- the main thread

  ghost predicate MainStep(s: State, s': State) {
    match s.main
    case Accepting => exists fd :: s' == s.(main := Wanting(fd), conns := s.conns + [fd])
    case Wanting(fd) => s.mutex == None && s' == s.(main := Inside(fd), mutex := Some(Acceptor))
    case Inside(fd) =>
      && 0 <= s.iput < |s.clifd|
      && s' == s.(clifd := s.clifd[s.iput := fd], iput := Succ(s.iput, MAXNCLI), accepted := s.accepted + [fd],
                  main := if Succ(s.iput, MAXNCLI) == s.iget then Exited else Signalling)
    case Signalling => Signal(s, s')
    case Unlocking => s' == s.(main := Accepting, mutex := None)
    case Exited => false
  }

  /** `pthread_cond_signal` wakes at least one of the threads that wait, if any does. */
  ghost predicate Signal(s: State, s': State) {
    && |s'.workers| == |s.workers|
    && (forall w :: 0 <= w < |s.workers| ==>
          s'.workers[w] == s.workers[w] ||
          (s.workers[w].pc == Waiting && s'.workers[w] == s.workers[w].(pc := Woken)))
    && ((exists w :: 0 <= w < |s.workers| && s.workers[w].pc == Waiting) ==>
          exists w :: 0 <= w < |s.workers| && s'.workers[w].pc == Woken)
    && s' == s.(workers := s'.workers, main := Unlocking)
  }

  // ----- a worker

  function SetPc(s: State, w: nat, pc: WorkerPc): State
    requires w < |s.workers|
  {
    s.(workers := s.workers[w := s.workers[w].(pc := pc)])
  }

  ghost predicate WorkerStep(s: State, w: nat, s': State) {
    && w < |s.workers| && s.main != Exited
    && match s.workers[w].pc
       case Start => s.mutex == None && s' == SetPc(s, w, Testing).(mutex := Some(Thread(w)))
       case Testing =>
         if s.iget == s.iput then s' == SetPc(s, w, Waiting).(mutex := None)
         else
           && 0 <= s.iget < |s.clifd|
           && var fd := s.clifd[s.iget];
              s' == SetPc(s, w, Leaving(fd)).(iget := Succ(s.iget, MAXNCLI), taken := s.taken + [Take(fd, w)])
       case Waiting => s' == SetPc(s, w, Woken)  // a spurious wakeup
       case Woken => s.mutex == None && s' == SetPc(s, w, Testing).(mutex := Some(Thread(w)))
       case Leaving(fd) => s' == SetPc(s, w, Counting(fd)).(mutex := None)
       case Counting(fd) =>
         s' == s.(workers := s.workers[w := Worker(Serving(fd), s.workers[w].count + 1)])
       case Serving(_) => s' == SetPc(s, w, Start)
  }

  ghost predicate Next(s: State, s': State) {
    MainStep(s, s') || exists w: nat :: WorkerStep(s, w, s')
  }

  // ----- the invariant

  ghost predicate RingInv(s: State) {
    && |s.clifd| == MAXNCLI
    && |s.taken| <= |s.accepted| <= |s.taken| + MAXNCLI
    && (s.main != Exited ==> |s.accepted| < |s.taken| + MAXNCLI)
    && s.iput == |s.accepted| % MAXNCLI && s.iget == |s.taken| % MAXNCLI
    && (forall j :: 0 <= j < |s.taken| ==> s.taken[j].fd == s.accepted[j])
    && (forall j :: |s.taken| <= j < |s.accepted| ==> s.clifd[j % MAXNCLI] == s.accepted[j])
  }

  predicate MainHolds(pc: MainPc) { pc.Inside? || pc == Signalling || pc == Unlocking || pc == Exited }
  predicate WorkerHolds(pc: WorkerPc) { pc == Testing || pc.Leaving? }

  ghost predicate LockInv(s: State) {
    && (MainHolds(s.main) <==> s.mutex == Some(Acceptor))
    && forall w :: 0 <= w < |s.workers| ==> (WorkerHolds(s.workers[w].pc) <==> s.mutex == Some(Thread(w)))
  }

  function TakesBy(taken: seq<Take>, w: nat): nat {
    if taken == [] then 0
    else TakesBy(taken[..|taken| - 1], w) + if taken[|taken| - 1].worker == w then 1 else 0
  }

  ghost predicate CountInv(s: State) {
    forall w :: 0 <= w < |s.workers| ==>
      var k := s.workers[w];
      k.count + (if k.pc.Leaving? || k.pc.Counting? then 1 else 0) == TakesBy(s.taken, w)
  }

  /** The index of a worker's latest take, or -1. */
  function LastTake(taken: seq<Take>, w: nat): (j: int)
    ensures -1 <= j < |taken|
    ensures 0 <= j ==> taken[j].worker == w
    ensures forall i :: j < i < |taken| ==> taken[i].worker != w
  {
    if taken == [] then -1
    else if taken[|taken| - 1].worker == w then |taken| - 1
    else LastTake(taken[..|taken| - 1], w)
  }

  predicate Busy(pc: WorkerPc) { pc.Leaving? || pc.Counting? || pc.Serving? }

  /** A worker is busy with the descriptor it took last. */
  ghost predicate HoldInv(s: State) {
    forall w :: 0 <= w < |s.workers| && Busy(s.workers[w].pc) ==>
      var j := LastTake(s.taken, w);
      0 <= j && s.taken[j].fd == s.workers[w].pc.fd
  }

  /** Every connection was put into the ring, or is in the hands of the main thread. */
  ghost predicate ConnInv(s: State) {
    s.conns == s.accepted + if s.main.Wanting? || s.main.Inside? then [s.main.fd] else []
  }

  ghost predicate AllAsleep(s: State) {
    |s.workers| > 0 && forall w :: 0 <= w < |s.workers| ==> s.workers[w].pc == Waiting
  }

  /** No wakeup is lost: when everyone sleeps, nothing is queued, or a signal is on its way. */
  ghost predicate WakeInv(s: State) {
    AllAsleep(s) ==> |s.accepted| == |s.taken| || s.main == Signalling || s.main == Exited
  }

  ghost predicate Inv(s: State) {
    RingInv(s) && LockInv(s) && CountInv(s) && WakeInv(s) && HoldInv(s) && ConnInv(s)
  }

  lemma TakesBySnoc(taken: seq<Take>, t: Take, w: nat)
    ensures TakesBy(taken + [t], w) == TakesBy(taken, w) + if t.worker == w then 1 else 0
  {
    assert (taken + [t])[..|taken|] == taken;
  }

  lemma LastTakeSnoc(taken: seq<Take>, t: Take, w: nat)
    ensures LastTake(taken + [t], w) == if t.worker == w then |taken| else LastTake(taken, w)
  {
    assert (taken + [t])[..|taken|] == taken;
  }

  /** The slot to write is not one whose descriptor has not been taken. */
  lemma PutSlotFree(s: State)
    requires RingInv(s) && s.main != Exited
    ensures forall j :: |s.taken| <= j < |s.accepted| ==> j % MAXNCLI != s.iput
  {
    forall j | |s.taken| <= j < |s.accepted| ensures j % MAXNCLI != s.iput {
      ModDistinct(j, |s.accepted|, MAXNCLI);
    }
  }

  lemma PutInv(s: State, s': State)
    requires Inv(s) && s.main.Inside? && MainStep(s, s')
    ensures Inv(s')
  {
    PutSlotFree(s);
    ModSucc(|s.accepted|, MAXNCLI);
    ModDistinct(|s.taken|, |s.accepted| + 1, MAXNCLI);
    assert s.workers == s'.workers;
    hide TakesBy, LastTake;
  }

  lemma MainInv(s: State, s': State)
    requires Inv(s) && !s.main.Inside? && MainStep(s, s')
    ensures Inv(s')
  {
    hide TakesBy, LastTake;
    if s.main == Signalling {
      if |s.workers| > 0 {
        var w :| 0 <= w < |s.workers| && s'.workers[w].pc != Waiting;
      }
    }
  }

  lemma TakeInv(s: State, w: nat, s': State)
    requires Inv(s) && WorkerStep(s, w, s') && s.workers[w].pc == Testing && s.iget != s.iput
    ensures Inv(s')
  {
    ModSucc(|s.taken|, MAXNCLI);
    var fd := s.clifd[s.iget];
    assert |s.taken| < |s.accepted|;
    assert fd == s.accepted[|s.taken|];
    hide RingInv;
    forall v | 0 <= v < |s'.workers|
      ensures s'.workers[v].count + (if s'.workers[v].pc.Leaving? || s'.workers[v].pc.Counting? then 1 else 0)
           == TakesBy(s'.taken, v)
    {
      TakesBySnoc(s.taken, Take(fd, w), v);
    }
    TakeHold(s, w, s');
    TakeRing(s, w, s');
    assert s'.workers[w].pc != Waiting;
  }

  lemma TakeHold(s: State, w: nat, s': State)
    requires HoldInv(s) && WorkerStep(s, w, s') && s.workers[w].pc == Testing && s.iget != s.iput
    ensures HoldInv(s')
  {
    hide LastTake;
    var t := Take(s.clifd[s.iget], w);
    forall v | 0 <= v < |s'.workers| && Busy(s'.workers[v].pc)
      ensures 0 <= LastTake(s'.taken, v) && s'.taken[LastTake(s'.taken, v)].fd == s'.workers[v].pc.fd
    {
      LastTakeSnoc(s.taken, t, v);
    }
  }

  lemma TakeRing(s: State, w: nat, s': State)
    requires RingInv(s) && WorkerStep(s, w, s') && s.workers[w].pc == Testing && s.iget != s.iput
    ensures RingInv(s')
  {
    ModSucc(|s.taken|, MAXNCLI);
  }

  lemma WorkerHold(s: State, w: nat, s': State)
    requires HoldInv(s) && WorkerStep(s, w, s') && !(s.workers[w].pc == Testing && s.iget != s.iput)
    ensures HoldInv(s')
  {
    hide LastTake;
    assert s'.taken == s.taken;
  }

  lemma WorkerCount(s: State, w: nat, s': State)
    requires CountInv(s) && WorkerStep(s, w, s') && !(s.workers[w].pc == Testing && s.iget != s.iput)
    ensures CountInv(s')
  {
    hide TakesBy;
    assert s'.taken == s.taken;
  }

  lemma WorkerInv(s: State, w: nat, s': State)
    requires Inv(s) && WorkerStep(s, w, s') && !(s.workers[w].pc == Testing && s.iget != s.iput)
    ensures Inv(s')
  {
    WorkerHold(s, w, s');
    WorkerCount(s, w, s');
    hide HoldInv, CountInv;
    if s.workers[w].pc == Testing {
      ModDistinct(|s.taken|, |s.accepted|, MAXNCLI);
      assert |s.accepted| == |s.taken|;
    } else {
      assert s'.workers[w].pc != Waiting;
    }
    assert RingInv(s');
    hide RingInv;
  }

  lemma NextInv(s: State, s': State)
    requires Inv(s) && Next(s, s')
    ensures Inv(s')
  {
    if w: nat :| WorkerStep(s, w, s') {
      if s.workers[w].pc == Testing && s.iget != s.iput {
        TakeInv(s, w, s');
      } else {
        WorkerInv(s, w, s');
      }
    } else if s.main.Inside? {
      PutInv(s, s');
    } else {
      MainInv(s, s');
    }
  }

  lemma RunInv(run: seq<State>, n: nat)
    requires IsRun(Init, Next, run) && n < |run|
    ensures Inv(run[n])
  {
    forall s | Init(s) ensures Inv(s) {}
    forall s, s' | Inv(s) && Next(s, s') ensures Inv(s') { NextInv(s, s'); }
    Induction(Init, Next, Inv, run, n);
  }

  // ----- what holds of every run

  /** Descriptors leave in the order in which they were accepted, each to one worker. */
  lemma Fifo(run: seq<State>, n: nat)
    requires IsRun(Init, Next, run) && n < |run|
    ensures |run[n].taken| <= |run[n].accepted|
    ensures run[n].accepted <= run[n].conns
    ensures |run[n].conns| <= |run[n].accepted| + 1
    ensures forall j :: 0 <= j < |run[n].taken| ==> run[n].taken[j].fd == run[n].accepted[j]
    ensures forall w :: 0 <= w < |run[n].workers| ==>
              var k := run[n].workers[w];
              k.count + (if k.pc.Leaving? || k.pc.Counting? then 1 else 0) == TakesBy(run[n].taken, w)
  {
    RunInv(run, n);
  }

  /** A busy worker serves the connection that its latest take stands for, as `accept` returned it. */
  lemma ServesItsTake(run: seq<State>, n: nat, w: nat)
    requires IsRun(Init, Next, run) && n < |run| && w < |run[n].workers| && Busy(run[n].workers[w].pc)
    ensures var s, j := run[n], LastTake(run[n].taken, w);
            0 <= j < |s.accepted| <= |s.conns| && s.workers[w].pc.fd == s.accepted[j] == s.conns[j]
  {
    RunInv(run, n);
  }

  /** No step overwrites a slot whose descriptor has not been taken. */
  lemma UntakenKept(run: seq<State>, n: nat, j: nat)
    requires IsRun(Init, Next, run) && n + 1 < |run|
    requires |run[n].taken| <= j < |run[n].accepted|
    ensures |run[n].clifd| == |run[n + 1].clifd| == MAXNCLI
    ensures run[n + 1].clifd[j % MAXNCLI] == run[n].clifd[j % MAXNCLI] == run[n].accepted[j]
  {
    RunInv(run, n);
    RunInv(run, n + 1);
    assert Next(run[n], run[n + 1]);
    if run[n].main != Exited {
      PutSlotFree(run[n]);
    }
  }

  /** A descriptor never waits in the ring while all workers sleep unsignalled. */
  lemma NoLostWakeup(run: seq<State>, n: nat)
    requires IsRun(Init, Next, run) && n < |run|
    requires |run[n].workers| > 0 && run[n].iget != run[n].iput
    requires run[n].main != Signalling && run[n].main != Exited
    ensures exists w :: 0 <= w < |run[n].workers| && run[n].workers[w].pc != Waiting
  {
    RunInv(run, n);
  }

  /** At most one thread is in its critical section. */
  lemma MutualExclusion(run: seq<State>, n: nat)
    requires IsRun(Init, Next, run) && n < |run|
    ensures forall v, w :: 0 <= v < w < |run[n].workers| ==>
              !(WorkerHolds(run[n].workers[v].pc) && WorkerHolds(run[n].workers[w].pc))
    ensures forall w :: 0 <= w < |run[n].workers| ==>
              !(MainHolds(run[n].main) && WorkerHolds(run[n].workers[w].pc))
  {
    RunInv(run, n);
  }

  /** A worker that wakes to a non-empty ring takes its oldest descriptor and gives up the mutex. */
  lemma TakesOldest(s: State, w: nat) returns (s1: State, s2: State, s3: State)
    requires Inv(s) && w < |s.workers| && s.main != Exited && s.mutex == None && |s.taken| < |s.accepted|
    requires s.workers[w].pc == Start || s.workers[w].pc == Woken
    ensures Next(s, s1) && Next(s1, s2) && Next(s2, s3)
    ensures s3.taken == s.taken + [Take(s.accepted[|s.taken|], w)] && s3.mutex == None
    ensures w < |s3.workers| && s3.workers[w].pc == Counting(s.accepted[|s.taken|])
  {
    hide TakesBy, LastTake;
    ModDistinct(|s.taken|, |s.accepted|, MAXNCLI);
    s1 := SetPc(s, w, Testing).(mutex := Some(Thread(w)));
    assert WorkerStep(s, w, s1);
    var fd := s.clifd[s.iget];
    assert fd == s.accepted[|s.taken|];
    s2 := SetPc(s1, w, Leaving(fd)).(iget := Succ(s.iget, MAXNCLI), taken := s.taken + [Take(fd, w)]);
    assert WorkerStep(s1, w, s2);
    s3 := SetPc(s2, w, Counting(fd)).(mutex := None);
    assert WorkerStep(s2, w, s3);
  }

  /** The main thread can accept any connection and put it into the ring. */
  lemma PutsNext(s: State, fd: int) returns (s1: State, s2: State, s3: State)
    requires Inv(s) && s.main == Accepting && s.mutex == None
    ensures Next(s, s1) && Next(s1, s2) && Next(s2, s3)
    ensures s3.conns == s.conns + [fd] && s3.accepted == s.accepted + [fd] && s3.workers == s.workers
    ensures s3.main == Signalling || s3.main == Exited
  {
    s1 := s.(main := Wanting(fd), conns := s.conns + [fd]);
    s2 := s1.(main := Inside(fd), mutex := Some(Acceptor));
    s3 := s2.(clifd := s.clifd[s.iput := fd], iput := Succ(s.iput, MAXNCLI), accepted := s.accepted + [fd],
              main := if Succ(s.iput, MAXNCLI) == s.iget then Exited else Signalling);
    assert MainStep(s, s1) && MainStep(s1, s2) && MainStep(s2, s3);
  }
}

/**
 The signal-driven echo server: the main loop and the SIGIO handler share a
 ring of datagrams. The handler may run between any two statements of the main
 loop while SIGIO is not blocked; it then runs to its end.
 */
module SigioEcho {
  import opened Common
  import opened Runs

  const QSIZE := 8

  /** A queue entry: the datagram, its sender, and the length of that address. */
  datatype Dg = Dg(data: seq<Byte>, sa: nat, salen: nat)

  /** The point reached by the main loop; SIGIO is blocked at `Test` and `Dequeue`. */
  datatype Pc = Test | Suspended | Send | Advance | Wrap | Block | Dequeue

  /**
   `handler` is the handler's `nread` while it runs. `received` and `sent` are
   the histories of `recvfrom` and `sendto`.
   */
  datatype State = State(
    dg: seq<Dg>, iget: int, iput: int, nqueue: int, cntread: seq<nat>, clilen: nat,
    pc: Pc, handler: Option<nat>, overflow: bool,
    received: seq<Dg>, sent: seq<Dg>)

  predicate Unblocked(pc: Pc) { pc != Test && pc != Dequeue }

  ghost predicate Init(s: State) {
    && |s.dg| == QSIZE && |s.cntread| == QSIZE + 1
    && s.iget == s.iput == s.nqueue == 0
    && s.pc == Test && s.handler == None && !s.overflow
    && s.received == [] && s.sent == []
  }

  // ----- the main loop, one statement at a time

  function MainStep(s: State): State
    requires |s.dg| == QSIZE
  {
    match s.pc
    case Test => s.(pc := if s.nqueue == 0 then Suspended else Send)
    case Suspended => s.(pc := Test)
    case Send => s.(pc := Advance, sent := s.sent + [if 0 <= s.iget < QSIZE then s.dg[s.iget] else Dg([], 0, 0)])
    case Advance => s.(pc := Wrap, iget := s.iget + 1)
    case Wrap => s.(pc := Block, iget := if s.iget >= QSIZE then 0 else s.iget)
    case Block => s.(pc := Dequeue)
    case Dequeue => s.(pc := Test, nqueue := s.nqueue - 1)
  }

  ghost predicate Main(s: State, s': State) {
    !s.overflow && s.handler == None && |s.dg| == QSIZE && s' == MainStep(s)
  }

  // ----- the handler

  ghost predicate Deliver(s: State, s': State) {
    !s.overflow && s.handler == None && Unblocked(s.pc) && s' == s.(handler := Some(0))
  }

  ghost predicate Overflow(s: State, s': State) {
    !s.overflow && s.handler.Some? && s.nqueue >= QSIZE && s' == s.(overflow := true)
  }

  ghost predicate CanRead(s: State) {
    && !s.overflow && s.handler.Some? && s.nqueue < QSIZE
    && 0 <= s.iput < QSIZE == |s.dg|
  }

  /** A datagram is there; it goes into the slot at `iput`. */
  ghost predicate ReadOne(s: State, d: Dg, s': State) {
    && CanRead(s)
    && s' == s.(dg := s.dg[s.iput := d], handler := Some(s.handler.value + 1), nqueue := s.nqueue + 1,
                iput := if s.iput + 1 >= QSIZE then 0 else s.iput + 1, received := s.received + [d])
  }

  /** No datagram is left. The slot's address length has been overwritten all the same. */
  ghost predicate ReadNone(s: State, s': State) {
    && CanRead(s)
    && s' == s.(dg := s.dg[s.iput := s.dg[s.iput].(salen := s.clilen)], handler := None,
                cntread := if s.handler.value < |s.cntread|
                           then s.cntread[s.handler.value := s.cntread[s.handler.value] + 1] else [])
  }

  ghost predicate Next(s: State, s': State) {
    || Main(s, s') || Deliver(s, s') || Overflow(s, s') || ReadNone(s, s')
    || exists d :: ReadOne(s, d, s')
  }

  // ----- the invariant

  /** The number of datagrams that are no longer counted in `nqueue`. */
  function Gone(s: State): int { |s.received| - s.nqueue }

  /** The datagram at `Gone(s)` has been sent but is still counted. */
  predicate SentAhead(pc: Pc) { pc == Advance || pc == Wrap || pc == Block || pc == Dequeue }

  /** Where `iget` points, between its increment and its wrap-around too. */
  function GetIndex(gone: nat, pc: Pc): nat {
    if pc == Wrap then gone % QSIZE + 1
    else if pc == Block || pc == Dequeue then (gone + 1) % QSIZE
    else gone % QSIZE
  }

  ghost predicate Inv(s: State) {
    && |s.dg| == QSIZE && |s.cntread| == QSIZE + 1
    && 0 <= s.nqueue <= QSIZE && 0 <= Gone(s)
    && s.iput == |s.received| % QSIZE
    && s.iget == GetIndex(Gone(s), s.pc)
    && (s.pc == Send || SentAhead(s.pc) ==> 1 <= s.nqueue)
    && |s.sent| == Gone(s) + (if SentAhead(s.pc) then 1 else 0)
    && s.sent <= s.received
    && (forall j :: Gone(s) <= j < |s.received| ==> s.dg[j % QSIZE] == s.received[j])
    && (s.handler.Some? ==> s.handler.value <= s.nqueue && Unblocked(s.pc))
  }

  /** While a slot is free, the one at `iput` holds no counted datagram. */
  lemma PutSlotFree(s: State)
    requires Inv(s) && s.nqueue < QSIZE
    ensures forall j :: Gone(s) <= j < |s.received| ==> j % QSIZE != s.iput
  {
    forall j | Gone(s) <= j < |s.received| ensures j % QSIZE != s.iput {
      ModDistinct(j, |s.received|, QSIZE);
    }
  }

  lemma MainInv(s: State, s': State)
    requires Inv(s) && Main(s, s')
    ensures Inv(s')
  {
    ModSucc(Gone(s), QSIZE);
    if s.pc == Send {
      assert s.dg[s.iget] == s.received[Gone(s)];
    }
  }

  lemma ReadOneInv(s: State, d: Dg, s': State)
    requires Inv(s) && ReadOne(s, d, s')
    ensures Inv(s')
  {
    PutSlotFree(s);
    ModSucc(|s.received|, QSIZE);
  }

  lemma ReadNoneInv(s: State, s': State)
    requires Inv(s) && ReadNone(s, s')
    ensures Inv(s')
  {
    PutSlotFree(s);
  }

  lemma NextInv(s: State, s': State)
    requires Inv(s) && Next(s, s')
    ensures Inv(s')
  {
    if d :| ReadOne(s, d, s') {
      ReadOneInv(s, d, s');
    } else if Main(s, s') {
      MainInv(s, s');
    } else if ReadNone(s, s') {
      ReadNoneInv(s, s');
    }
  }

  lemma RunInv(run: seq<State>, n: nat)
    requires IsRun(Init, Next, run) && n < |run|
    ensures Inv(run[n])
  {
    forall s | Init(s) ensures Inv(s) {}
    forall s, s' | Inv(s) && Next(s, s') ensures Inv(s') { NextInv(s, s'); }
    Induction(Init, Next, Inv, run, n);
  }

  // ----- what holds of every run

  /** The oldest counted slot: `iget`, or the one before it when `iget` has moved on. */
  function Oldest(s: State): int {
    if s.pc == Wrap || s.pc == Block || s.pc == Dequeue then s.iget - 1 else s.iget
  }

  lemma PutAfterQueue(s: State)
    requires Inv(s)
    ensures s.iput == (Oldest(s) + s.nqueue) % QSIZE
  {
    var gone, n := Gone(s), |s.received|;
    ModSucc(gone, QSIZE);
    var laps := if s.iget == 0 && (s.pc == Block || s.pc == Dequeue) then gone / QSIZE + 1 else gone / QSIZE;
    assert Oldest(s) == gone - QSIZE * laps;
    ModUnique(Oldest(s) + s.nqueue, QSIZE, n / QSIZE - laps, s.iput);
  }

  /** Echoed once each, in arrival order, and no index ever leaves its array. */
  lemma RunSafe(run: seq<State>, n: nat)
    requires IsRun(Init, Next, run) && n < |run|
    ensures var s := run[n];
            && s.sent <= s.received
            && |s.received| - |s.sent| == s.nqueue - (if SentAhead(s.pc) then 1 else 0)
            && s.iput == (Oldest(s) + s.nqueue) % QSIZE
            && (s.pc == Send ==> 0 <= s.iget < QSIZE)
            && 0 <= s.iput < QSIZE
            && (s.handler.Some? ==> s.handler.value < |s.cntread|)
  {
    RunInv(run, n);
    PutAfterQueue(run[n]);
  }

  /** No step of any run overwrites a datagram that is pending or being sent. */
  lemma PendingKept(run: seq<State>, n: nat, j: nat)
    requires IsRun(Init, Next, run) && n + 1 < |run|
    requires Gone(run[n]) <= j < |run[n].received|
    ensures |run[n].dg| == |run[n + 1].dg| == QSIZE
    ensures run[n + 1].dg[j % QSIZE] == run[n].dg[j % QSIZE] == run[n].received[j]
  {
    RunInv(run, n);
    RunInv(run, n + 1);
    assert Next(run[n], run[n + 1]);
    if run[n].nqueue < QSIZE {
      PutSlotFree(run[n]);
    }
  }

  /** Between the send and the decrement, the slot just sent is still protected. */
  lemma SlotBeingSent(run: seq<State>, n: nat)
    requires IsRun(Init, Next, run) && n < |run| && (run[n].pc == Send || run[n].pc == Advance)
    ensures 0 <= Gone(run[n]) < |run[n].received| && run[n].iget == Gone(run[n]) % QSIZE
    ensures run[n].nqueue < QSIZE ==> run[n].iput != run[n].iget
  {
    RunInv(run, n);
    if run[n].nqueue < QSIZE {
      PutSlotFree(run[n]);
    }
  }

  /** With a datagram queued, one turn of the main loop sends the oldest and discounts it. */
  lemma SendsOldest(s: State)
    requires Inv(s) && s.pc == Test && 0 < s.nqueue
    ensures |s.sent| < |s.received|
    ensures var s' := MainStep(MainStep(MainStep(MainStep(MainStep(MainStep(s))))));
            && s'.sent == s.sent + [s.received[|s.sent|]]
            && s'.pc == Test && s'.nqueue == s.nqueue - 1 && s'.dg == s.dg && s'.iput == s.iput
  {
    assert s.dg[s.iget] == s.received[Gone(s)];
  }

  /** An empty queue makes the loop wait, and test again when it is woken. */
  lemma WaitsWhenEmpty(s: State)
    requires |s.dg| == QSIZE && s.pc == Test && s.nqueue == 0
    ensures MainStep(s) == s.(pc := Suspended) && MainStep(MainStep(s)) == s
  {
  }

  /** SIGIO can interrupt wherever it is not blocked, and the handler can then read any datagram into a free slot. */
  lemma HandlerReads(s: State, d: Dg) returns (s1: State, s2: State)
    requires Inv(s) && !s.overflow && s.handler == None && Unblocked(s.pc) && s.nqueue < QSIZE
    ensures Next(s, s1) && Next(s1, s2)
    ensures s2.received == s.received + [d] && s2.nqueue == s.nqueue + 1 && s2.pc == s.pc && s2.iget == s.iget
  {
    s1 := s.(handler := Some(0));
    s2 := s1.(dg := s.dg[s.iput := d], handler := Some(1), nqueue := s.nqueue + 1,
              iput := if s.iput + 1 >= QSIZE then 0 else s.iput + 1, received := s.received + [d]);
    assert Deliver(s, s1) && ReadOne(s1, d, s2);
  }
}

/**
 Request and reply over UDP: `dg_send_recv`, the echo server, and a network
 that may lose, duplicate and reorder datagrams. The network keeps every
 datagram ever sent and may deliver it at any time, any number of times, or
 never.
 */
module DgSendRecv {
  import opened Common
  import opened Runs
  import opened Rtt

  const MAXLINE := 4096
  const HDR_SIZE := 8
  const SEQ_MOD := 0x1_0000_0000

  type Data = seq<Byte>

  /** A datagram: the header that the client adds, and the payload. */
  datatype Dg = Dg(seqno: nat, ts: nat, data: Data)

  function Truncate(data: Data, n: nat): Data {
    if |data| <= n then data else data[..n]
  }

  /** What `dg_echo` sends back: all it could receive into its buffer. */
  function Echo(data: Data): Data { Truncate(data, MAXLINE - HDR_SIZE) }

  datatype Outcome = Reply(data: Data) | GaveUp

  /** A finished call: its result, the client's buffer size, and its history. */
  datatype Record = Record(outcome: Outcome, room: nat, sends: nat, timeouts: nat)

  /**
   `inited`, `info` and `seqno` are the client's static variables; `requests`
   are the payloads of all calls begun, of which `done` have returned. `room`,
   `sends` and `timeouts` belong to the call in progress. `timers` and `rtos`
   are every value given to `alarm` and the RTO at each new packet; `maxRtt`
   is the largest RTT measured.
   */
  datatype State = State(
    inited: bool, info: RttInfo, seqno: nat,
    requests: seq<Data>, done: seq<Record>, waiting: bool, room: nat, sends: nat, timeouts: nat,
    toServer: set<Dg>, toClient: set<Dg>,
    timers: seq<int>, rtos: seq<real>, maxRtt: real)

  datatype Event =
    | Call(data: Data, room: nat, ts: nat)
    | Alarm(ts: nat)
    | Serve(d: Dg)
    | Receive(d: Dg, ms: nat)

  /** `sendagain`: stamp, send, and start the timer. */
  function Transmit(s: State, ts: nat): State
    requires s.requests != []
  {
    s.(toServer := s.toServer + {Dg(s.seqno, ts, s.requests[|s.requests| - 1])},
       sends := s.sends + 1,
       timers := s.timers + [Start(s.info)])
  }

  function Finish(s: State, outcome: Outcome): State {
    s.(waiting := false, done := s.done + [Record(outcome, s.room, s.sends, s.timeouts)])
  }

  function Begin(s: State, data: Data, room: nat, ts: nat): State {
    var info := (if s.inited then s.info else Initial()).(nrexmt := 0);
    var s1 := s.(inited := true, info := info, seqno := (s.seqno + 1) % SEQ_MOD,
                 requests := s.requests + [data], waiting := true,
                 room := room, sends := 0, timeouts := 0, rtos := s.rtos + [info.rto]);
    Transmit(s1, ts)
  }

  function Expire(s: State, ts: nat): State
    requires s.requests != []
  {
    var s1 := s.(info := TimedOut(s.info), timeouts := s.timeouts + 1);
    if GivesUp(s1.info) then Finish(s1.(inited := false), GaveUp) else Transmit(s1, ts)
  }

  /** A datagram that is not for the current request is read and dropped. */
  function Accept(s: State, d: Dg, ms: nat): State {
    if d.seqno != s.seqno then s
    else
      Finish(s.(info := Stopped(s.info, ms), maxRtt := Greater(s.maxRtt, ms as real / 1000.0)),
             Reply(Truncate(d.data, s.room)))
  }

  ghost predicate Step(s: State, e: Event, s': State) {
    match e
    case Call(data, room, ts) => !s.waiting && s' == Begin(s, data, room, ts)
    case Alarm(ts) => s.waiting && s.requests != [] && s' == Expire(s, ts)
    case Serve(d) => d in s.toServer && s' == s.(toClient := s.toClient + {d.(data := Echo(d.data))})
    case Receive(d, ms) => s.waiting && d in s.toClient && s' == Accept(s, d, ms)
  }

  ghost predicate Next(s: State, s': State) { exists e :: Step(s, e, s') }

  ghost predicate Init(s: State) {
    && !s.inited && s.seqno == 0 && s.requests == [] && s.done == [] && !s.waiting
    && s.toServer == {} && s.toClient == {} && s.timers == [] && s.rtos == [] && s.maxRtt == 0.0
  }

  // ----- the invariant

  /** `data` belongs to the `k`-th call, whose number is sent as `seqno`. */
  ghost predicate Issued(requests: seq<Data>, k: nat, seqno: nat, data: Data) {
    1 <= k <= |requests| && seqno == k % SEQ_MOD && data == requests[k - 1]
  }

  ghost predicate OfRequest(requests: seq<Data>, d: Dg) {
    exists k :: Issued(requests, k, d.seqno, d.data)
  }

  ghost predicate OfReply(requests: seq<Data>, d: Dg) {
    exists k, data :: Issued(requests, k, d.seqno, data) && d.data == Echo(data)
  }

  ghost predicate NetworkInv(s: State) {
    && s.seqno == |s.requests| % SEQ_MOD
    && (forall d :: d in s.toServer ==> OfRequest(s.requests, d))
    && (forall d :: d in s.toClient ==> OfReply(s.requests, d))
  }

  function Scale(n: int): real {
    if n == 1 then 2.0 else if n == 2 then 4.0 else if n == 3 then 8.0 else 1.0
  }

  ghost predicate TimerInv(s: State) {
    && (forall i :: 0 <= i < |s.timers| ==> 2 <= s.timers[i] <= 480)
    && (forall i :: 0 <= i < |s.rtos| ==> RTT_RXTMIN <= s.rtos[i] <= RTT_RXTMAX)
    && 0.0 <= s.maxRtt
    && (s.inited ==> Bounded(s.info, s.maxRtt))
    && (s.inited && !s.waiting ==> RTT_RXTMIN <= s.info.rto <= RTT_RXTMAX)
    && (s.waiting ==> s.inited && 0 <= s.info.nrexmt <= RTT_MAXNREXMT)
    && (s.waiting ==> RTT_RXTMIN <= s.info.rto <= RTT_RXTMAX * Scale(s.info.nrexmt))
    && BackoffInv(s)
  }

  /** Each timeout doubles the RTO of the packet, and each timer is the RTO rounded. */
  ghost predicate BackoffInv(s: State) {
    && (s.inited && !s.waiting ==> s.info.rto == MinMax(s.info.srtt + 4.0 * s.info.rttvar))
    && (s.waiting ==>
          && s.rtos != [] && s.timers != [] && 0 <= s.info.nrexmt
          && s.rtos[|s.rtos| - 1] == MinMax(s.info.srtt + 4.0 * s.info.rttvar)
          && s.info.rto == Power(2.0, s.info.nrexmt) * s.rtos[|s.rtos| - 1]
          && s.timers[|s.timers| - 1] == (s.info.rto + 0.5).Floor)
  }

  /** The reply to call `n` echoes the request of some call with its number. */
  ghost predicate Answers(requests: seq<Data>, n: nat, k: nat, r: Record) {
    && 1 <= k <= n <= |requests| && k % SEQ_MOD == n % SEQ_MOD
    && r.outcome == Reply(Truncate(Echo(requests[k - 1]), r.room))
  }

  ghost predicate RecordOk(requests: seq<Data>, n: nat, r: Record) {
    && r.sends <= RTT_MAXNREXMT + 1
    && (r.outcome.GaveUp? ==> r.timeouts == RTT_MAXNREXMT + 1 && r.sends == RTT_MAXNREXMT + 1)
    && (r.outcome.Reply? ==> r.sends == r.timeouts + 1)
    && (r.outcome.Reply? ==> exists k :: Answers(requests, n, k, r))
  }

  ghost predicate CallInv(s: State) {
    && |s.requests| == |s.done| + (if s.waiting then 1 else 0)
    && (s.waiting ==> s.timeouts == s.info.nrexmt && s.sends == s.timeouts + 1)
    && forall n :: 0 <= n < |s.done| ==> RecordOk(s.requests, n + 1, s.done[n])
  }

  ghost predicate Inv(s: State) {
    NetworkInv(s) && TimerInv(s) && CallInv(s)
  }

  lemma BeginTimer(s: State, data: Data, room: nat, ts: nat)
    requires TimerInv(s) && !s.waiting
    ensures TimerInv(Begin(s, data, room, ts))
  {
    PowerStep(2.0, 0);
    hide Power;
  }

  lemma BeginInv(s: State, data: Data, room: nat, ts: nat)
    requires Inv(s) && !s.waiting
    ensures Inv(Begin(s, data, room, ts))
  {
    BeginTimer(s, data, room, ts);
    hide TimerInv;
    var s' := Begin(s, data, room, ts);
    var before, after := s.requests, s'.requests;
    forall d | d in s'.toServer ensures OfRequest(after, d) {
      if d in s.toServer {
        var k :| Issued(before, k, d.seqno, d.data);
        assert Issued(after, k, d.seqno, d.data);
      } else {
        assert Issued(after, |after|, d.seqno, d.data);
      }
    }
    forall d | d in s'.toClient ensures OfReply(after, d) {
      var k, data :| Issued(before, k, d.seqno, data) && d.data == Echo(data);
      assert Issued(after, k, d.seqno, data);
    }
    RecordsKept(before, data, s.done);
  }

  lemma RecordsKept(before: seq<Data>, data: Data, done: seq<Record>)
    requires forall n :: 0 <= n < |done| ==> RecordOk(before, n + 1, done[n])
    ensures forall n :: 0 <= n < |done| ==> RecordOk(before + [data], n + 1, done[n])
  {
    forall n | 0 <= n < |done| ensures RecordOk(before + [data], n + 1, done[n]) {
      assert RecordOk(before, n + 1, done[n]);
      if done[n].outcome.Reply? {
        var k :| Answers(before, n + 1, k, done[n]);
        assert Answers(before + [data], n + 1, k, done[n]);
      }
    }
  }

  lemma ExpireTimer(s: State, ts: nat)
    requires TimerInv(s) && s.waiting && s.requests != []
    ensures TimerInv(Expire(s, ts))
  {
    PowerStep(2.0, s.info.nrexmt + 1);
    hide Power;
  }

  lemma ExpireInv(s: State, ts: nat)
    requires Inv(s) && s.waiting && s.requests != []
    ensures Inv(Expire(s, ts))
  {
    assert 0 <= s.info.nrexmt <= RTT_MAXNREXMT;
    ExpireTimer(s, ts);
    hide TimerInv;
    var s' := Expire(s, ts);
    forall d | d in s'.toServer ensures OfRequest(s'.requests, d) {
      if d !in s.toServer {
        assert Issued(s.requests, |s.requests|, d.seqno, d.data);
      }
    }
  }

  lemma ServeInv(s: State, s': State, d: Dg)
    requires Inv(s) && Step(s, Serve(d), s')
    ensures Inv(s')
  {
    assert TimerInv(s');
    hide TimerInv;
    var k :| Issued(s.requests, k, d.seqno, d.data);
    assert OfReply(s.requests, d.(data := Echo(d.data)));
  }

  lemma ReceiveInv(s: State, d: Dg, ms: nat)
    requires Inv(s) && s.waiting && d in s.toClient
    ensures Inv(Accept(s, d, ms))
  {
    if d.seqno == s.seqno {
      var s' := Accept(s, d, ms);
      var k, data :| Issued(s.requests, k, d.seqno, data) && d.data == Echo(data);
      assert Answers(s'.requests, |s'.done|, k, s'.done[|s.done|]);
      assert Bounded(s.info, s'.maxRtt);
      StopKeepsBounded(s.info, ms, s'.maxRtt);
    }
  }

  lemma NextInv(s: State, s': State)
    requires Inv(s) && Next(s, s')
    ensures Inv(s')
  {
    hide Inv, Begin, Expire, Accept;
    var e :| Step(s, e, s');
    match e
    case Call(data, room, ts) => BeginInv(s, data, room, ts);
    case Alarm(ts) => ExpireInv(s, ts);
    case Serve(d) => ServeInv(s, s', d);
    case Receive(d, ms) => ReceiveInv(s, d, ms);
  }

  lemma RunInv(run: seq<State>, i: nat)
    requires IsRun(Init, Next, run) && i < |run|
    ensures Inv(run[i])
  {
    forall s | Init(s) ensures Inv(s) {}
    forall s, s' | Inv(s) && Next(s, s') ensures Inv(s') { NextInv(s, s'); }
    Induction(Init, Next, Inv, run, i);
  }

  // ----- what holds of every run

  /** If the `n`-th call returned a reply, it is the echo of the `n`-th request. */
  ghost predicate Fresh(s: State, n: nat) {
    1 <= n <= |s.done| <= |s.requests| && s.done[n - 1].outcome.Reply? ==>
      s.done[n - 1].outcome.data == Truncate(Echo(s.requests[n - 1]), s.done[n - 1].room)
  }

  /** The first 2^32 calls never accept a stale reply. */
  lemma ReplyIsFresh(run: seq<State>, i: nat, n: nat)
    requires IsRun(Init, Next, run) && i < |run| && n <= SEQ_MOD
    ensures Fresh(run[i], n)
  {
    RunInv(run, i);
    var s := run[i];
    if 1 <= n <= |s.done| && s.done[n - 1].outcome.Reply? {
      assert RecordOk(s.requests, n, s.done[n - 1]);
      var k :| Answers(s.requests, n, k, s.done[n - 1]);
      SameNumber(k, n);
    }
  }

  lemma SameNumber(k: nat, n: nat)
    requires 1 <= k <= n <= SEQ_MOD && k % SEQ_MOD == n % SEQ_MOD
    ensures k == n
  {
  }

  // From the next call on the number is reused, and a delayed reply is taken
  // for a current one. The witness lets every earlier call time out.

  function Last(run: seq<State>): State
    requires run != []
  {
    run[|run| - 1]
  }

  lemma Extend(run: seq<State>, e: Event, s': State)
    requires IsRun(Init, Next, run) && Step(Last(run), e, s')
    ensures IsRun(Init, Next, run + [s'])
  {
    assert Next(Last(run), s');
  }

  lemma FailingCall(run: seq<State>, data: Data) returns (run': seq<State>)
    requires IsRun(Init, Next, run) && !Last(run).waiting
    ensures IsRun(Init, Next, run') && !Last(run').waiting
    ensures Last(run').requests == Last(run).requests + [data]
    ensures Last(run').seqno == (Last(run).seqno + 1) % SEQ_MOD
    ensures Last(run).toServer + {Dg(Last(run').seqno, 0, data)} <= Last(run').toServer
    ensures |Last(run').done| == |Last(run).done| + 1
  {
    var s1 := Begin(Last(run), data, 0, 0);
    Extend(run, Call(data, 0, 0), s1);
    var s2 := Expire(s1, 0);
    Extend(run + [s1], Alarm(0), s2);
    var s3 := Expire(s2, 0);
    Extend(run + [s1] + [s2], Alarm(0), s3);
    var s4 := Expire(s3, 0);
    Extend(run + [s1] + [s2] + [s3], Alarm(0), s4);
    var s5 := Expire(s4, 0);
    Extend(run + [s1] + [s2] + [s3] + [s4], Alarm(0), s5);
    run' := run + [s1] + [s2] + [s3] + [s4] + [s5];
  }

  lemma {:induction false} FailingCalls(k: nat, data: Data) returns (run: seq<State>)
    ensures IsRun(Init, Next, run) && !Last(run).waiting
    ensures |Last(run).requests| == |Last(run).done| == k && Last(run).seqno == k % SEQ_MOD
    ensures forall j :: 1 <= j <= k ==> Dg(j % SEQ_MOD, 0, data) in Last(run).toServer
  {
    if k == 0 {
      run := [State(false, Initial(), 0, [], [], false, 0, 0, 0, {}, {}, [], [], 0.0)];
    } else {
      hide Next, Init;
      var r := FailingCalls(k - 1, data);
      run := FailingCall(r, data);
    }
  }

  lemma TakesStale(s: State, d: Dg, n: nat)
    requires n > SEQ_MOD && |s.requests| == |s.done| == n - 1 && s.seqno == (n - 1) % SEQ_MOD
    requires d == Dg((n - SEQ_MOD) % SEQ_MOD, 0, [0])
    ensures !Fresh(Accept(Begin(s, [1], 1, 0), d, 0), n)
  {
    assert Begin(s, [1], 1, 0).seqno == n % SEQ_MOD == d.seqno;
  }

  lemma StaleReply(n: nat) returns (run: seq<State>)
    requires n > SEQ_MOD
    ensures IsRun(Init, Next, run) && !Fresh(Last(run), n)
  {
    var r0 := FailingCalls(n - 1, [0]);
    var d := Dg((n - SEQ_MOD) % SEQ_MOD, 0, [0]);
    assert d in Last(r0).toServer;
    var s1 := Last(r0).(toClient := Last(r0).toClient + {d.(data := Echo(d.data))});
    Extend(r0, Serve(d), s1);
    var s2 := Begin(s1, [1], 1, 0);
    Extend(r0 + [s1], Call([1], 1, 0), s2);
    var s3 := Accept(s2, d, 0);
    Extend(r0 + [s1] + [s2], Receive(d, 0), s3);
    run := r0 + [s1] + [s2] + [s3];
    TakesStale(s1, d, n);
  }

  /** The `n`-th call is safe from stale replies in every run iff `n <= 2^32`. */
  lemma FreshExactly(n: nat)
    ensures (forall run, i :: IsRun(Init, Next, run) && 0 <= i < |run| ==> Fresh(run[i], n)) <==> n <= SEQ_MOD
  {
    if n <= SEQ_MOD {
      forall run, i | IsRun(Init, Next, run) && 0 <= i < |run| ensures Fresh(run[i], n) {
        ReplyIsFresh(run, i, n);
      }
    } else {
      var run := StaleReply(n);
      assert !Fresh(run[|run| - 1], n);
    }
  }

  /** Each call sends at most four times and gives up only after four timeouts. */
  lemma BoundedEffort(run: seq<State>, i: nat)
    requires IsRun(Init, Next, run) && i < |run|
    ensures forall n :: 0 <= n < |run[i].done| ==>
      && run[i].done[n].sends <= RTT_MAXNREXMT + 1
      && (run[i].done[n].outcome.GaveUp? ==> run[i].done[n].timeouts == RTT_MAXNREXMT + 1)
      && (run[i].done[n].outcome.Reply? ==> run[i].done[n].timeouts <= RTT_MAXNREXMT)
    ensures run[i].waiting ==> run[i].sends == run[i].timeouts + 1 <= RTT_MAXNREXMT + 1
  {
    RunInv(run, i);
    forall n | 0 <= n < |run[i].done| ensures RecordOk(run[i].requests, n + 1, run[i].done[n]) {}
  }

  /** Timers, RTOs and estimators stay in range over a whole run. */
  lemma TimersInRange(run: seq<State>, i: nat)
    requires IsRun(Init, Next, run) && i < |run|
    ensures forall j :: 0 <= j < |run[i].timers| ==> 2 <= run[i].timers[j] <= 480
    ensures forall j :: 0 <= j < |run[i].rtos| ==> 2.0 <= run[i].rtos[j] <= 60.0
    ensures run[i].inited ==> 0.0 <= run[i].info.srtt <= run[i].maxRtt
    ensures run[i].inited ==> 0.0 <= run[i].info.rttvar <= Greater(0.75, run[i].maxRtt)
  {
    RunInv(run, i);
  }

  /**
   While a call waits, its timer is the RTO it began with, doubled at each
   timeout and rounded; between calls the RTO is the clamped estimate.
   */
  lemma Backoff(run: seq<State>, i: nat)
    requires IsRun(Init, Next, run) && i < |run|
    ensures var s := run[i];
            s.waiting ==>
              && s.rtos != [] && s.timers != []
              && s.rtos[|s.rtos| - 1] == MinMax(s.info.srtt + 4.0 * s.info.rttvar)
              && s.timers[|s.timers| - 1] == (Power(2.0, s.timeouts) * s.rtos[|s.rtos| - 1] + 0.5).Floor
    ensures var s := run[i];
            s.inited && !s.waiting ==> s.info.rto == MinMax(s.info.srtt + 4.0 * s.info.rttvar)
  {
    RunInv(run, i);
  }

  /** A request that fits the server's buffer and the caller's comes back whole. */
  lemma WholeReply(run: seq<State>, i: nat, n: nat)
    requires IsRun(Init, Next, run) && i < |run| && 1 <= n <= SEQ_MOD && n <= |run[i].done|
    requires run[i].done[n - 1].outcome.Reply?
    ensures n <= |run[i].requests|
    ensures |run[i].requests[n - 1]| <= 4088 && |run[i].requests[n - 1]| <= run[i].done[n - 1].room ==>
              run[i].done[n - 1].outcome.data == run[i].requests[n - 1]
    ensures |run[i].done[n - 1].outcome.data| == Min(|run[i].requests[n - 1]|, Min(4088, run[i].done[n - 1].room))
    ensures run[i].done[n - 1].outcome.data <= run[i].requests[n - 1]
  {
    RunInv(run, i);
    ReplyIsFresh(run, i, n);
  }

  /** On a network that delivers, a call from any idle state returns the echo after one transmission. */
  lemma GoodCall(run: seq<State>, data: Data, room: nat, ts: nat, ms: nat) returns (run': seq<State>)
    requires IsRun(Init, Next, run) && !Last(run).waiting
    ensures IsRun(Init, Next, run') && !Last(run').waiting
    ensures Last(run').requests == Last(run).requests + [data]
    ensures Last(run').done == Last(run).done + [Record(Reply(Truncate(Echo(data), room)), room, 1, 0)]
  {
    var s1 := Begin(Last(run), data, room, ts);
    Extend(run, Call(data, room, ts), s1);
    var d := Dg(s1.seqno, ts, data);
    var echo := d.(data := Echo(data));
    var s2 := s1.(toClient := s1.toClient + {echo});
    Extend(run + [s1], Serve(d), s2);
    var s3 := Accept(s2, echo, ms);
    Extend(run + [s1] + [s2], Receive(echo, ms), s3);
    run' := run + [s1] + [s2] + [s3];
  }
}

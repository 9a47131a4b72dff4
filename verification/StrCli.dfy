/**
 The nonblocking `str_cli`: one buffer from standard input to the socket and
 one from the socket to standard output. What `select`, `read` and `write` do
 is given for each iteration as a `Round`.
 */
module StrCli {
  import opened Common

  const MAXLINE := 4096

  /** EWOULDBLOCK, another error, end of file, or at most the given bytes. */
  datatype ReadResult = ReadBlocks | ReadFails | Eof | Data(bytes: seq<Byte>)

  /** EWOULDBLOCK, another error, or at most `n` bytes taken. */
  datatype WriteResult = WriteBlocks | WriteFails | Wrote(n: nat)

  /** Readiness of the descriptors and the results of the calls, if they are made. */
  datatype Round = Round(
    stdinReady: bool, sockReadable: bool, sockWritable: bool, stdoutWritable: bool,
    stdin: ReadResult, sock: ReadResult, toSock: WriteResult, toStdout: WriteResult)

  predicate Plausible(r: ReadResult) { r.Data? ==> r.bytes != [] }

  datatype Result = Continue | Return | Quit

  /** One of the calls, if it is made, fails with an error other than EWOULDBLOCK. */
  predicate CallFails(r: Round) {
    r.stdin == ReadFails || r.sock == ReadFails || r.toSock == WriteFails || r.toStdout == WriteFails
  }

  /** The bytes that a `read` into a space of `n` bytes transfers. */
  function Taken(r: ReadResult, n: nat): seq<Byte> {
    if r.Data? then r.bytes[..Min(|r.bytes|, n)] else []
  }

  /** The number of bytes that a `write` of `n` bytes transfers. */
  function Given(r: WriteResult, n: nat): nat {
    if r.Wrote? then Min(r.n, n) else 0
  }

  lemma GivenNone(r: WriteResult)
    ensures Given(r, 0) == 0
  {
  }

  lemma Assoc(a: seq<Byte>, b: seq<Byte>, c: seq<Byte>)
    ensures (a + b) + c == a + (b + c)
  {
  }

  /** Writing the first `n` of the bytes from `lo` to `hi` moves them to the end of `done`. */
  lemma Moved(a: array<Byte>, lo: nat, hi: nat, n: nat, done: seq<Byte>)
    requires lo + n <= hi <= a.Length
    ensures done + a[lo..hi] == done + a[lo..lo + n] + a[lo + n..hi]
    ensures lo + n == hi ==> done + a[lo..hi] == done + a[lo..lo + n] + a[0..0]
  {
    assert a[lo..hi] == a[lo..lo + n] + a[lo + n..hi];
  }

  class Client {
    const to: array<Byte>
    const fr: array<Byte>
    var toi: nat   // toiptr - to
    var too: nat   // tooptr - to
    var fri: nat   // friptr - fr
    var fro: nat   // froptr - fr
    var stdineof: bool

    // what has passed through the four descriptors
    ghost var stdinRead: seq<Byte>
    ghost var sockWritten: seq<Byte>
    ghost var sockRead: seq<Byte>
    ghost var stdoutWritten: seq<Byte>
    ghost var fins: nat
    ghost var shortestRead: nat  // the least length asked of `read`

    /** What was read from standard input has been written to the socket or is in `to`. */
    ghost predicate ToValid()
      reads `toi, `too, `stdineof, `fins, `stdinRead, `sockWritten, to
    {
      && to.Length == MAXLINE && too <= toi <= MAXLINE && (too == toi ==> toi == 0)
      && stdinRead == sockWritten + to[too..toi]
      && fins == (if stdineof && too == toi then 1 else 0)
    }

    /** What was read from the socket has been written to standard output or is in `fr`. */
    ghost predicate FrValid()
      reads `fri, `fro, `sockRead, `stdoutWritten, fr
    {
      && fr.Length == MAXLINE && fro <= fri <= MAXLINE && (fro == fri ==> fri == 0)
      && sockRead == stdoutWritten + fr[fro..fri]
    }

    ghost predicate Valid()
      reads this, to, fr
    {
      to != fr && ToValid() && FrValid() && 0 < shortestRead
    }

    /** Some descriptor is always selected for. */
    lemma SelectNotEmpty()
      requires Valid()
      ensures (!stdineof && toi < MAXLINE) || fri < MAXLINE || too != toi || fro != fri
    {
    }

    constructor ()
      ensures Valid() && fresh(to) && fresh(fr)
      ensures stdinRead == sockRead == [] && !stdineof
    {
      to := new Byte[MAXLINE](_ => 0);
      fr := new Byte[MAXLINE](_ => 0);
      toi, too, fri, fro, stdineof := 0, 0, 0, 0, false;
      stdinRead, sockWritten, sockRead, stdoutWritten := [], [], [], [];
      fins, shortestRead := 0, MAXLINE;
    }

    /** `data` says that the socket should be tried for writing. */
    method ReadStdin(r: ReadResult) returns (ok: bool, data: bool)
      requires Valid() && Plausible(r) && !stdineof && toi < MAXLINE
      modifies this, to
      ensures Valid() && sockWritten == old(sockWritten)
      ensures old(stdinRead) <= stdinRead
      ensures stdinRead == old(stdinRead) + Taken(r, MAXLINE - old(toi))
      ensures stdineof == (r == Eof)
      ensures sockRead == old(sockRead) && stdoutWritten == old(stdoutWritten)
      ensures fri == old(fri) && fro == old(fro)
      ensures ok == !r.ReadFails? && data == r.Data? && old(fins) <= fins
      ensures data <==> stdinRead != old(stdinRead)
    {
      hide FrValid;
      ok, data := true, false;
      shortestRead := Min(shortestRead, MAXLINE - toi);
      match r
      case ReadBlocks =>
      case ReadFails => ok := false;
      case Eof =>
        stdineof := true;
        if too == toi {
          fins := fins + 1;  // shutdown(sockfd, SHUT_WR)
        }
      case Data(bytes) =>
        var n := Min(|bytes|, MAXLINE - toi);
        Assoc(sockWritten, to[too..toi], bytes[..n]);
        Fill(to, too, toi, bytes[..n]);
        toi := toi + n;
        data := true;
        stdinRead := stdinRead + bytes[..n];
    }

    method ReadSocket(r: ReadResult) returns (res: Result, data: bool)
      requires Valid() && Plausible(r) && fri < MAXLINE
      modifies this, fr
      ensures Valid() && stdoutWritten == old(stdoutWritten)
      ensures old(sockRead) <= sockRead
      ensures sockRead == old(sockRead) + Taken(r, MAXLINE - old(fri))
      ensures stdinRead == old(stdinRead) && sockWritten == old(sockWritten)
      ensures toi == old(toi) && too == old(too) && stdineof == old(stdineof) && fins == old(fins)
      ensures res == Return <==> r == Eof && stdineof
      ensures res == Quit <==> r == ReadFails || (r == Eof && !stdineof)
      ensures data == r.Data? && (data <==> sockRead != old(sockRead))
    {
      hide ToValid;
      res, data := Continue, false;
      shortestRead := Min(shortestRead, MAXLINE - fri);
      match r
      case ReadBlocks =>
      case ReadFails => res := Quit;
      case Eof => res := if stdineof then Return else Quit;
      case Data(bytes) =>
        var n := Min(|bytes|, MAXLINE - fri);
        Assoc(stdoutWritten, fr[fro..fri], bytes[..n]);
        Fill(fr, fro, fri, bytes[..n]);
        fri := fri + n;
        data := true;
        sockRead := sockRead + bytes[..n];
    }

    method WriteStdout(r: WriteResult) returns (ok: bool)
      requires Valid() && fro < fri
      modifies this
      ensures Valid() && sockRead == old(sockRead)
      ensures old(stdoutWritten) <= stdoutWritten
      ensures |stdoutWritten| == |old(stdoutWritten)| + Given(r, old(fri - fro))
      ensures stdoutWritten == old(stdoutWritten) + old(fr[fro..fro + Given(r, fri - fro)])
      ensures stdinRead == old(stdinRead) && sockWritten == old(sockWritten)
      ensures toi == old(toi) && too == old(too) && stdineof == old(stdineof) && fins == old(fins)
      ensures ok == !r.WriteFails?
    {
      hide ToValid;
      ok := true;
      match r
      case WriteBlocks =>
      case WriteFails => ok := false;
      case Wrote(k) =>
        var n := Min(k, fri - fro);
        Moved(fr, fro, fri, n, stdoutWritten);
        stdoutWritten := stdoutWritten + fr[fro..fro + n];
        fro := fro + n;
        if fro == fri {
          fro, fri := 0, 0;
        }
    }

    method WriteSocket(r: WriteResult) returns (ok: bool)
      requires Valid() && too < toi
      modifies this
      ensures Valid() && stdinRead == old(stdinRead)
      ensures old(sockWritten) <= sockWritten
      ensures |sockWritten| == |old(sockWritten)| + Given(r, old(toi - too))
      ensures sockWritten == old(sockWritten) + old(to[too..too + Given(r, toi - too)])
      ensures sockRead == old(sockRead) && stdoutWritten == old(stdoutWritten)
      ensures stdineof == old(stdineof)
      ensures ok == !r.WriteFails? && old(fins) <= fins
    {
      hide FrValid;
      ok := true;
      match r
      case WriteBlocks =>
      case WriteFails => ok := false;
      case Wrote(k) =>
        var n := Min(k, toi - too);
        Moved(to, too, toi, n, sockWritten);
        sockWritten := sockWritten + to[too..too + n];
        too := too + n;
        if too == toi {
          too, toi := 0, 0;
          if stdineof {
            fins := fins + 1;  // shutdown(sockfd, SHUT_WR)
          }
        }
    }

    /** The reads of one iteration; what was just read is tried for writing at once. */
    method Input(round: Round) returns (res: Result, wSock: bool, wStdout: bool)
      requires Valid() && Plausible(round.stdin) && Plausible(round.sock)
      modifies this, to, fr
      ensures Valid() && sockWritten == old(sockWritten) && stdoutWritten == old(stdoutWritten) && old(fins) <= fins
      ensures old(stdinRead) <= stdinRead && old(sockRead) <= sockRead
      ensures stdinRead == old(stdinRead) +
                (if old(StdinWanted(round)) then Taken(round.stdin, MAXLINE - old(toi)) else [])
      ensures stdineof == (old(stdineof) || (old(StdinWanted(round)) && round.stdin == Eof))
      ensures res == Quit <==> old(StdinFails(round)) || (old(SockWanted(round)) && SockFails(round, stdineof))
      ensures res == Return <==> !old(StdinFails(round)) && old(SockWanted(round)) && round.sock == Eof && stdineof
      ensures res == Continue ==>
                sockRead == old(sockRead) + if old(SockWanted(round)) then Taken(round.sock, MAXLINE - old(fri)) else []
      ensures res == Continue ==> wSock == ((old(too != toi) && round.sockWritable) || stdinRead != old(stdinRead))
      ensures res == Continue ==> wStdout == ((old(fro != fri) && round.stdoutWritable) || sockRead != old(sockRead))
    {
      hide Valid, Taken;
      var rStdin := !stdineof && toi < MAXLINE && round.stdinReady;
      var rSock := fri < MAXLINE && round.sockReadable;
      wSock := too != toi && round.sockWritable;
      wStdout := fro != fri && round.stdoutWritable;
      res := Continue;
      if rStdin {
        var ok, data := ReadStdin(round.stdin);
        if !ok {
          return Quit, wSock, wStdout;
        }
        wSock := wSock || data;
      }
      if rSock {
        var data;
        res, data := ReadSocket(round.sock);
        wStdout := wStdout || data;
      }
    }

    /** Standard input is selected for and ready. */
    predicate StdinWanted(round: Round)
      reads this
    {
      !stdineof && toi < MAXLINE && round.stdinReady
    }

    predicate SockWanted(round: Round)
      reads this
    {
      fri < MAXLINE && round.sockReadable
    }

    /** The read from standard input is made, and fails. */
    predicate StdinFails(round: Round)
      reads this
    {
      StdinWanted(round) && round.stdin == ReadFails
    }

    /** A read from the socket fails, or meets its end before standard input ended. */
    static predicate SockFails(round: Round, stdineof: bool) {
      round.sock == ReadFails || (round.sock == Eof && !stdineof)
    }

    /** The writes of one iteration. */
    method Output(round: Round, wSock: bool, wStdout: bool) returns (res: Result)
      requires Valid()
      modifies this
      ensures Valid() && stdinRead == old(stdinRead) && sockRead == old(sockRead) && stdineof == old(stdineof)
      ensures old(sockWritten) <= sockWritten && old(stdoutWritten) <= stdoutWritten && old(fins) <= fins
      ensures res != Return
      ensures res == Quit <==> (wStdout && old(fro < fri) && round.toStdout == WriteFails) ||
                               (wSock && old(too < toi) && round.toSock == WriteFails)
      ensures res == Continue ==>
                |sockWritten| == |old(sockWritten)| + if wSock then Given(round.toSock, old(toi - too)) else 0
      ensures res == Continue ==>
                |stdoutWritten| == |old(stdoutWritten)| + if wStdout then Given(round.toStdout, old(fri - fro)) else 0
    {
      Lengths();
      GivenNone(round.toSock);
      GivenNone(round.toStdout);
      hide Valid, Given;
      if wStdout && fri > fro {
        var ok := WriteStdout(round.toStdout);
        if !ok {
          return Quit;
        }
      }
      if wSock && toi > too {
        var ok := WriteSocket(round.toSock);
        if !ok {
          return Quit;
        }
      }
      return Continue;
    }

    /** A write to standard output is made after the reads, and fails. */
    ghost predicate ToStdoutFails(round: Round, pending: bool, written: nat, read: nat)
      reads this
    {
      && round.toStdout == WriteFails
      && ((pending && round.stdoutWritable) || read < |sockRead|) && written < |sockRead|
    }

    /** A write to the socket is made after the reads, and fails. */
    ghost predicate ToSockFails(round: Round, pending: bool, written: nat, read: nat)
      reads this
    {
      && round.toSock == WriteFails
      && ((pending && round.sockWritable) || read < |stdinRead|) && written < |stdinRead|
    }

    /**
     One iteration of the loop. Input is taken as the buffers have room, and
     whatever was pending or has just been read is tried for output; with
     `Valid`, the lengths given determine what was written.
     */
    method Iterate(round: Round) returns (res: Result)
      requires Valid() && Plausible(round.stdin) && Plausible(round.sock)
      modifies this, to, fr
      ensures Valid()
      ensures stdinRead == old(stdinRead) +
                (if old(StdinWanted(round)) then Taken(round.stdin, MAXLINE - old(toi)) else [])
      ensures stdineof == (old(stdineof) || (old(StdinWanted(round)) && round.stdin == Eof))
      ensures res == Return <==> !old(StdinFails(round)) && old(SockWanted(round)) && round.sock == Eof && stdineof
      ensures res == Quit <==>
                || old(StdinFails(round)) || (old(SockWanted(round)) && SockFails(round, stdineof))
                || (!(old(SockWanted(round)) && round.sock == Eof) &&
                      (ToStdoutFails(round, old(fro != fri), |old(stdoutWritten)|, |old(sockRead)|) ||
                       ToSockFails(round, old(too != toi), |old(sockWritten)|, |old(stdinRead)|)))
      ensures res == Continue ==>
                sockRead == old(sockRead) + if old(SockWanted(round)) then Taken(round.sock, MAXLINE - old(fri)) else []
      ensures var writes := (old(too != toi) && round.sockWritable) || stdinRead != old(stdinRead);
              res == Continue ==>
                |sockWritten| == |old(sockWritten)| +
                  if writes then Given(round.toSock, |stdinRead| - |old(sockWritten)|) else 0
      ensures var writes := (old(fro != fri) && round.stdoutWritable) || sockRead != old(sockRead);
              res == Continue ==>
                |stdoutWritten| == |old(stdoutWritten)| +
                  if writes then Given(round.toStdout, |sockRead| - |old(stdoutWritten)|) else 0
      ensures old(stdinRead) <= stdinRead && old(sockWritten) <= sockWritten
      ensures old(sockRead) <= sockRead && old(stdoutWritten) <= stdoutWritten
      ensures old(stdineof) ==> stdineof && stdinRead == old(stdinRead)
      ensures old(fins) <= fins
    {
      SelectNotEmpty();
      hide Valid, Taken, Given;
      var wSock, wStdout;
      res, wSock, wStdout := Input(round);
      Lengths();
      if res == Continue {
        res := Output(round, wSock, wStdout);
      }
    }

    lemma Lengths()
      requires Valid()
      ensures |stdinRead| == |sockWritten| + (toi - too) && |sockRead| == |stdoutWritten| + (fri - fro)
      ensures too <= toi && fro <= fri
    {
    }

    /**
     The loop for as long as rounds are given. Under every pattern of partial
     and blocked calls: what the socket has taken, followed by what is pending,
     is what was read from standard input, and likewise the other way; the FIN
     is sent at most once, and only when all of standard input has been
     written; no read asks for zero bytes.
     */
    method Run(rounds: seq<Round>) returns (res: Result, used: nat)
      requires Valid()
      requires forall k :: 0 <= k < |rounds| ==> Plausible(rounds[k].stdin) && Plausible(rounds[k].sock)
      modifies this, to, fr
      ensures Valid()
      ensures sockWritten <= stdinRead && stdoutWritten <= sockRead
      ensures fins <= 1 && (fins == 1 <==> stdineof && sockWritten == stdinRead)
      ensures old(stdinRead) <= stdinRead && old(sockWritten) <= sockWritten
      ensures old(sockRead) <= sockRead && old(stdoutWritten) <= stdoutWritten
      ensures old(stdineof) ==> stdinRead == old(stdinRead)
      ensures 0 < shortestRead
      ensures used <= |rounds| && (res == Continue ==> used == |rounds|)
      ensures res == Return ==> 0 < used && rounds[used - 1].sock == Eof && stdineof
      ensures res == Quit ==> 0 < used && (CallFails(rounds[used - 1]) || (rounds[used - 1].sock == Eof && !stdineof))
    {
      res := Continue;
      used := 0;
      while used < |rounds| && res == Continue
        invariant 0 <= used <= |rounds| && Valid()
        invariant old(stdinRead) <= stdinRead && old(sockWritten) <= sockWritten
        invariant old(sockRead) <= sockRead && old(stdoutWritten) <= stdoutWritten
        invariant old(stdineof) ==> stdineof && stdinRead == old(stdinRead)
        invariant res == Return ==> 0 < used && rounds[used - 1].sock == Eof && stdineof
        invariant res == Quit ==>
                    0 < used && (CallFails(rounds[used - 1]) || (rounds[used - 1].sock == Eof && !stdineof))
      {
        res := Iterate(rounds[used]);
        used := used + 1;
      }
      FinExactly();
    }

    lemma FinExactly()
      requires Valid()
      ensures sockWritten <= stdinRead && stdoutWritten <= sockRead
      ensures fins == 1 <==> stdineof && sockWritten == stdinRead
    {
      assert |stdinRead| == |sockWritten| + (toi - too);
      assert too == toi ==> to[too..toi] == [];
    }
  }

  /** `read` stores `bytes` at `at`, after what is pending from `lo` on. */
  method Fill(a: array<Byte>, ghost lo: nat, at: nat, bytes: seq<Byte>)
    requires lo <= at && at + |bytes| <= a.Length
    modifies a
    ensures a[lo..at + |bytes|] == old(a[lo..at]) + bytes
  {
    forall k | 0 <= k < |bytes| {
      a[at + k] := bytes[k];
    }
  }
}

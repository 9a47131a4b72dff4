/**
 The parallel fetch client: at most `maxnconn` nonblocking connections at a
 time, one `select` for all of them. Each turn of the main loop is given the
 outcomes of its system calls as a `Round`.
 */
module WebFetch {
  import opened Common

  /** `f_flags`: 0, F_CONNECTING, F_READING, F_DONE. */
  datatype Flag = Unstarted | Connecting | Reading | Done

  function IsUnstarted(f: Flag): nat { if f == Unstarted then 1 else 0 }
  function IsActive(f: Flag): nat { if f == Connecting || f == Reading then 1 else 0 }
  function IsLeft(f: Flag): nat { if f != Done then 1 else 0 }

  /**
   Whether a connect completes at once, what `select` finds ready, and whether
   a read finds the end of file, for each file or descriptor; and how `socket`
   chooses a descriptor that is not open.
   */
  datatype Round = Round(instant: nat -> bool, readable: int -> bool, writable: int -> bool, eof: nat -> bool,
                         socket: set<int> -> int)

  ghost predicate Plausible(r: Round) {
    forall open :: r.socket(open) !in open
  }

  // ----- the descriptor sets

  /** File `i` has `fd` open, or is still connecting on it. */
  ghost predicate Open(flags: seq<Flag>, fds: seq<int>, i: int, fd: int) {
    0 <= i < |flags| == |fds| && IsActive(flags[i]) == 1 && fds[i] == fd
  }

  ghost predicate Pending(flags: seq<Flag>, fds: seq<int>, i: int, fd: int) {
    0 <= i < |flags| == |fds| && flags[i] == Connecting && fds[i] == fd
  }

  /** The sets watch exactly the open connections, writability only while connecting. */
  ghost predicate SetsOk(flags: seq<Flag>, fds: seq<int>, rset: set<int>, wset: set<int>, maxfd: int) {
    && |fds| == |flags|
    && (forall i, j, fd :: Open(flags, fds, i, fd) && Open(flags, fds, j, fd) ==> i == j)
    && (forall i, fd :: Open(flags, fds, i, fd) ==> fd in rset && fd <= maxfd)
    && (forall i, fd :: Pending(flags, fds, i, fd) ==> fd in wset)
    && (forall fd :: fd in rset ==> exists i :: Open(flags, fds, i, fd))
    && (forall fd :: fd in wset ==> exists i :: Pending(flags, fds, i, fd))
  }

  /** A file is started on a descriptor that is not open. */
  lemma SetsStart(flags: seq<Flag>, fds: seq<int>, rset: set<int>, wset: set<int>, maxfd: int, i: nat, fd: int, f: Flag)
    requires SetsOk(flags, fds, rset, wset, maxfd) && i < |flags| && flags[i] == Unstarted && fd !in rset
    requires f == Connecting || f == Reading
    ensures var wset' := if f == Connecting then wset + {fd} else wset;
            SetsOk(flags[i := f], fds[i := fd], rset + {fd}, wset', Max(maxfd, fd))
  {
    var flags', fds' := flags[i := f], fds[i := fd];
    var rset', wset' := rset + {fd}, if f == Connecting then wset + {fd} else wset;
    forall k, x | Open(flags', fds', k, x) ensures (k == i && x == fd) || (k != i && Open(flags, fds, k, x)) {}
    forall k, x | Pending(flags', fds', k, x)
      ensures (k == i && x == fd && f == Connecting) || Pending(flags, fds, k, x)
    {
    }
    forall x | x in rset' ensures exists k :: Open(flags', fds', k, x) {
      if x == fd {
        assert Open(flags', fds', i, x);
      } else {
        var k :| Open(flags, fds, k, x);
        assert Open(flags', fds', k, x);
      }
    }
    forall x | x in wset' ensures exists k :: Pending(flags', fds', k, x) {
      if x == fd && f == Connecting {
        assert Pending(flags', fds', i, x);
      } else {
        var k :| Pending(flags, fds, k, x);
        assert Pending(flags', fds', k, x);
      }
    }
  }

  /** A connecting file begins to read. */
  lemma SetsReading(flags: seq<Flag>, fds: seq<int>, rset: set<int>, wset: set<int>, maxfd: int, i: nat)
    requires SetsOk(flags, fds, rset, wset, maxfd) && i < |flags| && flags[i] == Connecting
    ensures SetsOk(flags[i := Reading], fds, rset, wset - {fds[i]}, maxfd) && fds[i] in rset && fds[i] <= maxfd
  {
    var flags' := flags[i := Reading];
    assert Open(flags, fds, i, fds[i]);
    forall k, x ensures Open(flags', fds, k, x) <==> Open(flags, fds, k, x) {}
    forall k, x | Pending(flags', fds, k, x) ensures Pending(flags, fds, k, x) && x != fds[i] {
      assert Open(flags, fds, k, x);
    }
    forall x | x in wset && x != fds[i] ensures exists k :: Pending(flags', fds, k, x) {
      var k :| Pending(flags, fds, k, x);
      assert Pending(flags', fds, k, x);
    }
  }

  /** A file has been read to its end and is closed. */
  lemma SetsDone(flags: seq<Flag>, fds: seq<int>, rset: set<int>, wset: set<int>, maxfd: int, i: nat)
    requires SetsOk(flags, fds, rset, wset, maxfd) && i < |flags| && flags[i] == Reading
    ensures SetsOk(flags[i := Done], fds, rset - {fds[i]}, wset, maxfd)
  {
    var flags' := flags[i := Done];
    assert Open(flags, fds, i, fds[i]);
    forall k, x | Open(flags', fds, k, x) ensures Open(flags, fds, k, x) && x != fds[i] {
      assert k != i && Open(flags, fds, k, x);
    }
    forall k, x ensures Pending(flags', fds, k, x) <==> Pending(flags, fds, k, x) {}
    forall x | x in rset && x != fds[i] ensures exists k :: Open(flags', fds, k, x) {
      var k :| Open(flags, fds, k, x);
      assert Open(flags', fds, k, x);
    }
  }

  class Web {
    const maxnconn: int
    var flags: seq<Flag>
    var fds: seq<int>
    var rset: set<int>
    var wset: set<int>
    var maxfd: int
    var nconn: int
    var nlefttoconn: int
    var nlefttoread: int

    ghost predicate CountsOk()
      reads this
    {
      && nlefttoconn == Total(flags, IsUnstarted)
      && nconn == Total(flags, IsActive)
      && nlefttoread == Total(flags, IsLeft)
      && nconn <= maxnconn
    }

    ghost predicate Valid()
      reads this
    {
      SetsOk(flags, fds, rset, wset, maxfd) && CountsOk()
    }

    constructor (nfiles: nat, maxnconn: int)
      requires 0 <= maxnconn
      ensures Valid() && |flags| == nfiles && this.maxnconn == maxnconn
      ensures forall i :: 0 <= i < nfiles ==> flags[i] == Unstarted
    {
      this.maxnconn := maxnconn;
      flags, fds := seq(nfiles, _ => Unstarted), seq(nfiles, _ => 0);
      rset, wset, maxfd := {}, {}, -1;
      nlefttoread, nlefttoconn, nconn := nfiles, nfiles, 0;
      new;
      TotalConstant(flags, IsUnstarted, 1);
      TotalConstant(flags, IsActive, 0);
      TotalConstant(flags, IsLeft, 1);
    }

    lemma Counted(f: Flag, i: nat)
      requires i < |flags|
      ensures Total(flags[i := f], IsUnstarted) == Total(flags, IsUnstarted) + IsUnstarted(f) - IsUnstarted(flags[i])
      ensures Total(flags[i := f], IsActive) == Total(flags, IsActive) + IsActive(f) - IsActive(flags[i])
      ensures Total(flags[i := f], IsLeft) == Total(flags, IsLeft) + IsLeft(f) - IsLeft(flags[i])
    {
      TotalUpdate(flags, i, f, IsUnstarted);
      TotalUpdate(flags, i, f, IsActive);
      TotalUpdate(flags, i, f, IsLeft);
    }

    /** The search for a file to start; it never fails while the counter is positive. */
    method FindUnstarted() returns (i: nat)
      requires CountsOk() && 0 < nlefttoconn
      ensures i < |flags| && flags[i] == Unstarted
      ensures forall k :: 0 <= k < i ==> flags[k] != Unstarted
    {
      TotalPositive(flags, IsUnstarted);
      i := 0;
      while i < |flags|
        invariant i <= |flags| && forall k :: 0 <= k < i ==> flags[k] != Unstarted
      {
        if flags[i] == Unstarted {
          return;
        }
        i := i + 1;
      }
      assert false;  // "nlefttoconn = %d but nothing found"
    }

    /** `write_get_cmd`: the file is being read from now on. */
    method WriteGetCmd(i: nat)
      requires i < |flags| == |fds|
      modifies `flags, `rset, `maxfd
      ensures flags == old(flags)[i := Reading] && rset == old(rset) + {fds[i]} && maxfd == Max(old(maxfd), fds[i])
    {
      flags := flags[i := Reading];
      rset := rset + {fds[i]};
      if fds[i] > maxfd {
        maxfd := fds[i];
      }
    }

    /** `start_connect`, and the counters that the main loop keeps for it. */
    method StartConnect(i: nat, fd: int, instant: bool)
      requires Valid() && i < |flags| && flags[i] == Unstarted && fd !in rset && nconn < maxnconn
      modifies this
      ensures Valid()
      ensures flags == old(flags)[i := if instant then Reading else Connecting] && fds == old(fds)[i := fd]
      ensures nlefttoconn == old(nlefttoconn) - 1 && nlefttoread == old(nlefttoread)
    {
      hide Total;
      ghost var f := if instant then Reading else Connecting;
      Counted(f, i);
      SetsStart(flags, fds, rset, wset, maxfd, i, fd, f);
      hide SetsOk;
      fds := fds[i := fd];
      if !instant {
        flags := flags[i := Connecting];
        rset := rset + {fd};
        wset := wset + {fd};
        if fd > maxfd {
          maxfd := fd;
        }
      } else {
        WriteGetCmd(i);
      }
      nconn := nconn + 1;
      nlefttoconn := nlefttoconn - 1;
    }

    /** The inner loop: as many connections as are allowed, for the first files in order. */
    method StartConnections(r: Round)
      requires Valid() && Plausible(r)
      modifies this
      ensures Valid() && |flags| == |old(flags)|
      ensures (nconn >= maxnconn || nlefttoconn == 0) && nlefttoread == old(nlefttoread)
      ensures forall i :: 0 <= i < |flags| ==> flags[i] == old(flags)[i] || JustStarted(r, i, old(flags)[i], flags[i])
      ensures forall i, j :: 0 <= i < j < |flags| && old(flags)[j] != flags[j] ==> flags[i] != Unstarted
    {
      while nconn < maxnconn && nlefttoconn > 0
        invariant Valid() && |flags| == |old(flags)| && nlefttoread == old(nlefttoread)
        invariant forall i :: 0 <= i < |flags| ==>
                    flags[i] == old(flags)[i] || JustStarted(r, i, old(flags)[i], flags[i])
        invariant forall i, j :: 0 <= i < j < |flags| && old(flags)[j] != flags[j] ==> flags[i] != Unstarted
        decreases nlefttoconn
      {
        var i := FindUnstarted();
        StartConnect(i, r.socket(rset), r.instant(i));
      }
    }

    /** `select` has something to wait for, within the range it is given. */
    lemma SelectNotEmpty()
      requires Valid() && 0 < nlefttoread && 1 <= maxnconn && (nconn >= maxnconn || nlefttoconn == 0)
      ensures rset != {} && forall fd :: fd in rset + wset ==> fd < maxfd + 1
    {
      LeftIsSum(flags);
      TotalPositive(flags, IsActive);
      var i :| 0 <= i < |flags| && 0 < IsActive(flags[i]);
      assert Open(flags, fds, i, fds[i]);
      forall fd | fd in rset + wset ensures fd <= maxfd {
        if fd in wset {
          var k :| Pending(flags, fds, k, fd);
          assert Open(flags, fds, k, fd);
        }
      }
    }

    /** One file in the scan after `select`; `rs` and `ws` are what was ready. */
    method Visit(i: nat, rs: set<int>, ws: set<int>, r: Round)
      requires Valid() && i < |flags|
      modifies this
      ensures Valid() && fds == old(fds)
      ensures flags == old(flags)[i := Visited(old(flags)[i], fds[i], rs, ws, r.eof(i))]
    {
      hide Total;
      if flags[i] == Unstarted || flags[i] == Done {
        return;
      }
      var fd := fds[i];
      if flags[i] == Connecting && (fd in rs || fd in ws) {
        SetsReading(flags, fds, rset, wset, maxfd, i);
        Counted(Reading, i);
        assert rset + {fd} == rset;
        hide SetsOk;
        wset := wset - {fd};
        WriteGetCmd(i);
      } else if flags[i] == Reading && fd in rs {
        if r.eof(i) {
          SetsDone(flags, fds, rset, wset, maxfd, i);
          Counted(Done, i);
          hide SetsOk;
          flags := flags[i := Done];
          rset := rset - {fd};
          nconn := nconn - 1;
          nlefttoread := nlefttoread - 1;
        }
      }
    }

    /**
     One turn of the main loop: connections are started, which leaves the
     flags `mid`, and then every file is visited once.
     */
    method Turn(r: Round) returns (ghost mid: seq<Flag>, rs: set<int>, ws: set<int>)
      requires Valid() && Plausible(r) && 1 <= maxnconn && 0 < nlefttoread
      modifies this
      ensures Valid() && |flags| == |old(flags)| == |mid|
      ensures forall i :: 0 <= i < |mid| ==> mid[i] == old(flags)[i] || JustStarted(r, i, old(flags)[i], mid[i])
      ensures forall i :: 0 <= i < |flags| ==> flags[i] == Visited(mid[i], fds[i], rs, ws, r.eof(i))
      ensures forall i :: 0 <= i < |flags| && IsActive(mid[i]) == 1 ==> (fds[i] in rs <==> r.readable(fds[i]))
      ensures forall i :: 0 <= i < |flags| && mid[i] == Connecting ==> (fds[i] in ws <==> r.writable(fds[i]))
      ensures forall i :: 0 <= i < |flags| && mid[i] == Connecting ==>
                flags[i] == if r.readable(fds[i]) || r.writable(fds[i]) then Reading else Connecting
      ensures forall i :: 0 <= i < |flags| && mid[i] == Reading ==>
                flags[i] == if r.readable(fds[i]) && r.eof(i) then Done else Reading
    {
      StartConnections(r);
      SelectNotEmpty();
      mid := flags;
      rs := set fd | fd in rset && r.readable(fd);
      ws := set fd | fd in wset && r.writable(fd);
      forall i | 0 <= i < |mid| && IsActive(mid[i]) == 1 ensures fds[i] in rset {
        assert Open(flags, fds, i, fds[i]);
      }
      forall i | 0 <= i < |mid| && mid[i] == Connecting ensures fds[i] in wset {
        assert Pending(flags, fds, i, fds[i]);
      }
      ghost var watched := fds;
      hide SetsOk;
      for i := 0 to |flags|
        invariant Valid() && |flags| == |mid| && fds == watched
        invariant forall k :: 0 <= k < i ==> flags[k] == Visited(mid[k], fds[k], rs, ws, r.eof(k))
        invariant forall k :: i <= k < |flags| ==> flags[k] == mid[k]
      {
        Visit(i, rs, ws, r);
      }
    }

    /** The main loop, for as long as rounds are given: it ends by itself only when all is done. */
    method Run(rounds: seq<Round>) returns (finished: bool)
      requires Valid() && 1 <= maxnconn && forall k :: 0 <= k < |rounds| ==> Plausible(rounds[k])
      modifies this
      ensures Valid() && nconn <= maxnconn && |flags| == |old(flags)|
      ensures finished <==> forall i :: 0 <= i < |flags| ==> flags[i] == Done
      ensures forall i :: 0 <= i < |flags| && flags[i] == Done && old(flags)[i] != Done ==>
                exists k :: 0 <= k < |rounds| && AtEof(rounds[k], i)
    {
      var k := 0;
      while nlefttoread > 0 && k < |rounds|
        invariant Valid() && k <= |rounds| && |flags| == |old(flags)|
        invariant forall i :: 0 <= i < |flags| && flags[i] == Done && old(flags)[i] != Done ==>
                    exists j :: 0 <= j < k && AtEof(rounds[j], i)
        decreases |rounds| - k
      {
        ghost var before := flags;
        var _, _, _ := Turn(rounds[k]);
        assert forall i :: 0 <= i < |flags| && flags[i] == Done && before[i] != Done ==> AtEof(rounds[k], i);
        k := k + 1;
      }
      finished := nlefttoread <= 0;
      TotalPositive(flags, IsLeft);
      assert forall i :: 0 <= i < |flags| ==> (flags[i] == Done <==> IsLeft(flags[i]) == 0);
    }
  }

  /** A read from the connection of file `i` would meet the end of file. */
  predicate AtEof(r: Round, i: nat) { r.eof(i) }

  predicate JustStarted(r: Round, i: nat, before: Flag, after: Flag) {
    before == Unstarted && after == if r.instant(i) then Reading else Connecting
  }

  /** What a visit makes of a file: every transition of the flags. */
  function Visited(f: Flag, fd: int, rs: set<int>, ws: set<int>, eof: bool): Flag {
    match f
    case Connecting => if fd in rs || fd in ws then Reading else Connecting
    case Reading => if fd in rs && eof then Done else Reading
    case _ => f
  }

  /** What is left to read is what is not started or active. */
  lemma {:induction false} LeftIsSum(flags: seq<Flag>)
    ensures Total(flags, IsLeft) == Total(flags, IsUnstarted) + Total(flags, IsActive)
  {
    if flags != [] {
      LeftIsSum(flags[1..]);
    }
  }
}

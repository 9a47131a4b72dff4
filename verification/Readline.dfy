/**
 Reading lines from a descriptor: buffered, with the state in statics or in a
 structure, and one byte at a time.
 */
module Readline {
  import opened Common

  const MAXLINE := 4096
  const NEWLINE: Byte := 10

  /** What the kernel does with one `read`: a short count, EINTR, or an error. */
  datatype Grant = Give(n: nat) | Eintr | Fail

  datatype ReadResult = Bytes(b: seq<Byte>) | Eof | Interrupted | Error

  /** A descriptor: the bytes still to come, and how `read` will split them. */
  class Descriptor {
    var stream: seq<Byte>
    var script: seq<Grant>

    constructor (stream: seq<Byte>, script: seq<Grant>)
      ensures this.stream == stream && this.script == script
    {
      this.stream, this.script := stream, script;
    }

    method Read(n: nat) returns (r: ReadResult)
      requires 0 < n
      modifies this
      ensures r.Bytes? ==> 0 < |r.b| <= n && old(stream) == r.b + stream
      ensures r == Eof ==> old(stream) == []
      ensures !r.Bytes? ==> stream == old(stream)
      ensures r == Interrupted || r == Error ==> old(script) != []
      ensures r == Interrupted ==> old(script)[0] == Eintr
      ensures r == Error ==> old(script)[0] == Fail
      ensures if old(script) == [] then script == [] else script == old(script)[1..]
      ensures Fail !in old(script) ==> Fail !in script
      ensures Fail !in old(script) && Eintr !in old(script) ==> Eintr !in script
    {
      var grant := if script == [] then Give(n) else script[0];
      script := if script == [] then [] else script[1..];
      match grant
      case Eintr => r := Interrupted;
      case Fail => r := Error;
      case Give(k) =>
        if stream == [] {
          return Eof;
        }
        var count := Min(Min(if k == 0 then 1 else k, n), |stream|);
        r := Bytes(stream[..count]);
        stream := stream[count..];
    }
  }

  // ----- what a line is

  /** How many bytes a line takes: up to a newline, the room, or the end. */
  function LineLen(data: seq<Byte>, room: nat): (k: nat)
    ensures k <= |data| && k <= room
    ensures NEWLINE !in data[..if k == 0 then 0 else k - 1]
    ensures k < |data| && k < room ==> 0 < k && data[k - 1] == NEWLINE
  {
    if room == 0 || data == [] then 0
    else if data[0] == NEWLINE then 1
    else 1 + LineLen(data[1..], room - 1)
  }

  lemma {:induction false} LineLenFrom(data: seq<Byte>, room: nat, j: nat)
    requires j <= |data| && j <= room && NEWLINE !in data[..j]
    ensures LineLen(data, room) == j + LineLen(data[j..], room - j)
  {
    if j == 0 {
      assert data[0..] == data;
    } else {
      assert data[0] == data[..j][0];
      assert data[1..][..j - 1] == data[..j][1..];
      LineLenFrom(data[1..], room - 1, j - 1);
      assert data[1..][j - 1..] == data[j..];
    }
  }

  /** The line ended for want of room, not at a newline or at the end of file. */
  predicate Filled(data: seq<Byte>, room: nat) {
    var k := LineLen(data, room);
    k == room && (k == 0 || data[k - 1] != NEWLINE)
  }

  function Room(maxlen: nat): nat { if maxlen == 0 then 0 else maxlen - 1 }

  // ----- the buffered reader

  class Reader {
    const fd: Descriptor
    const buf: array<Byte>
    var cnt: int
    var ptr: nat

    constructor (fd: Descriptor)
      ensures Valid() && this.fd == fd && fresh(buf) && Pending() == []
    {
      this.fd := fd;
      buf := new Byte[MAXLINE](_ => 0);
      cnt, ptr := 0, 0;
    }

    ghost predicate Valid()
      reads this, buf
    {
      buf.Length == MAXLINE && (0 < cnt ==> ptr + cnt <= MAXLINE)
    }

    /** Bytes read from the descriptor but not yet delivered. */
    ghost function Pending(): seq<Byte>
      requires Valid()
      reads this, buf
    {
      if 0 < cnt then buf[ptr..ptr + cnt] else []
    }

    /** Everything that has not been delivered. */
    ghost function Ahead(): seq<Byte>
      requires Valid()
      reads this, buf, fd
    {
      Pending() + fd.stream
    }

    /** The refill in `my_read`: a read is repeated while it is interrupted. */
    method Refill() returns (rc: int)
      requires Valid() && cnt <= 0
      modifies this, buf, fd
      ensures Valid() && -1 <= rc <= 1
      ensures Ahead() == old(Ahead())
      ensures rc == 1 ==> 0 < cnt
      ensures rc == 0 ==> Ahead() == []
      ensures Fail !in old(fd.script) ==> Fail !in fd.script && rc != -1
    {
      var r := fd.Read(MAXLINE);
      while r == Interrupted
        invariant Valid() && cnt == old(cnt)
        invariant r.Bytes? ==> 0 < |r.b| <= MAXLINE && old(fd.stream) == r.b + fd.stream
        invariant r == Eof ==> old(fd.stream) == []
        invariant !r.Bytes? ==> fd.stream == old(fd.stream)
        invariant Fail !in old(fd.script) ==> Fail !in fd.script && r != Error
        decreases r == Interrupted, |fd.script|
      {
        r := fd.Read(MAXLINE);
      }
      match r
      case Error =>
        cnt := -1;
        return -1;
      case Eof =>
        cnt := 0;
        return 0;
      case Bytes(b) =>
        forall k | 0 <= k < |b| {
          buf[k] := b[k];
        }
        cnt, ptr := |b|, 0;
        assert buf[0..|b|] == b;
        return 1;
    }

    /** Delivers the byte at the front of the buffer. */
    method Take() returns (c: Byte)
      requires Valid() && 0 < cnt
      modifies this
      ensures Valid() && old(Ahead()) == [c] + Ahead()
    {
      ghost var pending := Pending();
      cnt := cnt - 1;
      c := buf[ptr];
      ptr := ptr + 1;
      assert pending == [c] + Pending();
    }

    /** `my_read`: the next byte. */
    method MyRead() returns (rc: int, c: Byte)
      requires Valid()
      modifies this, buf, fd
      ensures Valid() && -1 <= rc <= 1
      ensures rc == 1 ==> old(Ahead()) == [c] + Ahead()
      ensures rc == 0 ==> old(Ahead()) == []
      ensures rc != 1 ==> Ahead() == old(Ahead())
      ensures Fail !in old(fd.script) ==> Fail !in fd.script && rc != -1
    {
      c := 0;
      if cnt <= 0 {
        rc := Refill();
        if rc != 1 {
          return;
        }
      }
      c := Take();
      rc := 1;
    }

    /**
     The loop of `readline` and `readline_r`: stores bytes until a newline, the
     end of file, an error, or the room runs out.
     */
    method FillLine(dst: array<Byte>, maxlen: nat) returns (n: nat, why: Stop)
      requires Valid() && maxlen <= dst.Length && dst != buf
      modifies this, buf, fd, dst
      ensures Valid()
      ensures LineStored(old(Ahead()), Ahead(), dst, maxlen, n, why)
      ensures Fail !in old(fd.script) ==> Fail !in fd.script && why != Failed
    {
      hide Ahead, Pending, Valid, LineLen;
      ghost var data := Ahead();
      n := 1;
      while n < maxlen
        invariant Valid() && 1 <= n && n - 1 <= Room(maxlen)
        invariant n - 1 <= |data| && Ahead() == data[n - 1..]
        invariant dst[..n - 1] == data[..n - 1] && NEWLINE !in data[..n - 1]
        invariant Fail !in old(fd.script) ==> Fail !in fd.script
      {
        var rc, c := MyRead();
        if rc == 1 {
          StoreByte(dst, n - 1, c);
          Next(data, n - 1, c, Ahead());
          if c == NEWLINE {
            Ended(data, Room(maxlen), n);
            return n, Newline;
          }
        } else if rc == 0 {
          LineLenFrom(data, Room(maxlen), n - 1);
          return n, AtEof;
        } else {
          return n, Failed;
        }
        n := n + 1;
      }
      LineLenFrom(data, Room(maxlen), n - 1);
      return n, Full;
    }

    /** `readline`: at the end of file it returns the number of bytes stored. */
    method Readline(dst: array<Byte>, maxlen: nat) returns (r: int)
      requires Valid() && maxlen <= dst.Length && 0 < dst.Length && dst != buf
      modifies this, buf, fd, dst
      ensures Valid() && -1 <= r
      ensures 0 <= r ==> Delivered(old(Ahead()), Ahead(), dst, maxlen)
      ensures 0 <= r ==> dst[LineLen(old(Ahead()), Room(maxlen))] == 0
      ensures 0 <= r ==> r == LineLen(old(Ahead()), Room(maxlen)) + if Filled(old(Ahead()), Room(maxlen)) then 1 else 0
      ensures r == -1 ==> Conserved(old(Ahead()), Ahead(), dst)
      ensures Fail !in old(fd.script) ==> Fail !in fd.script && r != -1
    {
      hide Delivered, Conserved, LineLen;
      ghost var data := Ahead();
      var n, why := FillLine(dst, maxlen);
      if why == Failed {
        return -1;
      }
      Terminate(dst, if why == Newline then n else n - 1, data, Ahead(), maxlen);
      return if why == AtEof then n - 1 else n;
    }

    /** `readline_r`: at the end of file it counts one byte more, or returns 0. */
    method ReadlineR(dst: array<Byte>, maxlen: nat) returns (r: int)
      requires Valid() && maxlen <= dst.Length && 0 < dst.Length && dst != buf
      modifies this, buf, fd, dst
      ensures Valid() && -1 <= r
      ensures 0 <= r ==> Delivered(old(Ahead()), Ahead(), dst, maxlen)
      ensures 0 <= r ==> r == CountR(old(Ahead()), maxlen)
      ensures 0 < r ==> dst[LineLen(old(Ahead()), Room(maxlen))] == 0
      ensures r == -1 ==> Conserved(old(Ahead()), Ahead(), dst)
      ensures Fail !in old(fd.script) ==> Fail !in fd.script && r != -1
    {
      hide Delivered, Conserved, LineLen;
      ghost var data := Ahead();
      var n, why := FillLine(dst, maxlen);
      if why == Failed {
        return -1;
      }
      if why == AtEof && n == 1 {
        return 0;
      }
      Terminate(dst, if why == Newline then n else n - 1, data, Ahead(), maxlen);
      return n;
    }
  }

  /** Why the loop stopped. */
  datatype Stop = Newline | AtEof | Full | Failed

  /** `dst` holds the line, and what is ahead is what followed it. */
  ghost predicate Delivered(data: seq<Byte>, ahead: seq<Byte>, dst: array<Byte>, maxlen: nat)
    reads dst
  {
    var k := LineLen(data, Room(maxlen));
    k <= dst.Length && dst[..k] == data[..k] && ahead == data[k..]
  }

  /** No byte is lost: what was taken is in `dst`. */
  ghost predicate Conserved(data: seq<Byte>, ahead: seq<Byte>, dst: array<Byte>)
    reads dst
  {
    var j := |data| - |ahead|;
    0 <= j <= dst.Length && dst[..j] == data[..j] && ahead == data[j..]
  }

  ghost predicate LineStored(data: seq<Byte>, ahead: seq<Byte>, dst: array<Byte>, maxlen: nat, n: nat, why: Stop)
    reads dst
  {
    var k, room := LineLen(data, Room(maxlen)), Room(maxlen);
    1 <= n &&
    match why
    case Failed => Conserved(data, ahead, dst)
    case Newline => n == k && n < maxlen && data[k - 1] == NEWLINE && Delivered(data, ahead, dst, maxlen)
    case AtEof =>
      n - 1 == k == |data| && n < maxlen && (k == 0 || data[k - 1] != NEWLINE) && Delivered(data, ahead, dst, maxlen)
    case Full => n - 1 == k == room && (k == 0 || data[k - 1] != NEWLINE) && Delivered(data, ahead, dst, maxlen)
  }

  function CountR(data: seq<Byte>, maxlen: nat): nat {
    var k := LineLen(data, Room(maxlen));
    if 0 < k && data[k - 1] == NEWLINE then k
    else if data == [] && 1 < maxlen then 0
    else k + 1
  }

  /** `*ptr = 0` */
  method Terminate(dst: array<Byte>, at: nat, ghost data: seq<Byte>, ghost ahead: seq<Byte>, ghost maxlen: nat)
    requires Delivered(data, ahead, dst, maxlen) && at == LineLen(data, Room(maxlen)) < dst.Length
    modifies dst
    ensures Delivered(data, ahead, dst, maxlen) && dst[at] == 0
  {
    dst[at] := 0;
    assert dst[..at] == old(dst[..at]);
  }

  lemma Next(data: seq<Byte>, j: nat, c: Byte, ahead: seq<Byte>)
    requires j <= |data| && data[j..] == [c] + ahead
    ensures j < |data| && data[j] == c && data[j + 1..] == ahead && data[..j + 1] == data[..j] + [c]
  {
    assert data[j..][0] == c && data[j..][1..] == ahead;
  }

  lemma Ended(data: seq<Byte>, room: nat, k: nat)
    requires 0 < k <= |data| && k <= room && data[k - 1] == NEWLINE && NEWLINE !in data[..k - 1]
    ensures LineLen(data, room) == k
  {
    LineLenFrom(data, room, k - 1);
    assert data[k - 1..][0] == NEWLINE;
  }

  // ----- one byte at a time

  /** The loop of the unbuffered `readline`. An interrupted read is an error here. */
  /** `*ptr++ = c` */
  method StoreByte(dst: array<Byte>, j: nat, c: Byte)
    requires j < dst.Length
    modifies dst
    ensures dst[..j + 1] == old(dst[..j]) + [c]
  {
    dst[j] := c;
  }

  /** `read(fd, &c, 1)` */
  method ReadByte(fd: Descriptor) returns (rc: int, c: Byte)
    modifies fd
    ensures -1 <= rc <= 1
    ensures rc == 1 ==> old(fd.stream) == [c] + fd.stream
    ensures rc == 0 ==> old(fd.stream) == []
    ensures rc != 1 ==> fd.stream == old(fd.stream)
    ensures Fail !in old(fd.script) && Eintr !in old(fd.script) ==>
              Fail !in fd.script && Eintr !in fd.script && rc != -1
  {
    var r := fd.Read(1);
    match r {
      case Bytes(b) =>
        assert b == [b[0]];
        return 1, b[0];
      case Eof => return 0, 0;
      case Interrupted => return -1, 0;
      case Error => return -1, 0;
    }
  }

  method FillLineUnbuffered(fd: Descriptor, dst: array<Byte>, maxlen: nat) returns (n: nat, why: Stop)
    requires maxlen <= dst.Length
    modifies fd, dst
    ensures LineStored(old(fd.stream), fd.stream, dst, maxlen, n, why)
    ensures Fail !in old(fd.script) && Eintr !in old(fd.script) ==>
              Fail !in fd.script && Eintr !in fd.script && why != Failed
  {
    hide LineLen;
    ghost var data := fd.stream;
    n := 1;
    while n < maxlen
      invariant 1 <= n && n - 1 <= Room(maxlen)
      invariant n - 1 <= |data| && fd.stream == data[n - 1..]
      invariant dst[..n - 1] == data[..n - 1] && NEWLINE !in data[..n - 1]
      invariant Fail !in old(fd.script) && Eintr !in old(fd.script) ==> Fail !in fd.script && Eintr !in fd.script
    {
      var rc, c := ReadByte(fd);
      if rc == 1 {
        StoreByte(dst, n - 1, c);
        Next(data, n - 1, c, fd.stream);
        if c == NEWLINE {
          Ended(data, Room(maxlen), n);
          return n, Newline;
        }
      } else if rc == 0 {
        LineLenFrom(data, Room(maxlen), n - 1);
        return n, AtEof;
      } else {
        return n, Failed;
      }
      n := n + 1;
    }
    LineLenFrom(data, Room(maxlen), n - 1);
    return n, Full;
  }

  /** The unbuffered `readline`: the same bytes, with the counts of `readline_r`. */
  method ReadlineUnbuffered(fd: Descriptor, dst: array<Byte>, maxlen: nat) returns (r: int)
    requires maxlen <= dst.Length && 0 < dst.Length
    modifies fd, dst
    ensures -1 <= r
    ensures 0 <= r ==> Delivered(old(fd.stream), fd.stream, dst, maxlen)
    ensures 0 <= r ==> r == CountR(old(fd.stream), maxlen)
    ensures 0 < r ==> dst[LineLen(old(fd.stream), Room(maxlen))] == 0
    ensures r == -1 ==> Conserved(old(fd.stream), fd.stream, dst)
    ensures Fail !in old(fd.script) && Eintr !in old(fd.script) ==> Fail !in fd.script && Eintr !in fd.script && r != -1
  {
    hide Delivered, Conserved, LineLen;
    ghost var data := fd.stream;
    var n, why := FillLineUnbuffered(fd, dst, maxlen);
    if why == Failed {
      return -1;
    }
    if why == AtEof && n == 1 {
      return 0;
    }
    Terminate(dst, if why == Newline then n else n - 1, data, fd.stream, maxlen);
    return n;
  }

  // ----- successive calls

  /** The lines that calls with the given sizes store, and what they leave. */
  function Lines(data: seq<Byte>, sizes: seq<nat>): seq<seq<Byte>> {
    if sizes == [] then []
    else
      var k := LineLen(data, Room(sizes[0]));
      [data[..k]] + Lines(data[k..], sizes[1..])
  }

  function Rest(data: seq<Byte>, sizes: seq<nat>): seq<Byte> {
    if sizes == [] then data else Rest(data[LineLen(data, Room(sizes[0]))..], sizes[1..])
  }

  function Flat(lines: seq<seq<Byte>>): seq<Byte> {
    if lines == [] then [] else lines[0] + Flat(lines[1..])
  }

  /** Nothing is lost or repeated: the lines and the rest are the data. */
  lemma {:induction false} LinesConserve(data: seq<Byte>, sizes: seq<nat>)
    ensures Flat(Lines(data, sizes)) + Rest(data, sizes) == data
    decreases |sizes|
  {
    if sizes != [] {
      var k := LineLen(data, Room(sizes[0]));
      LinesConserve(data[k..], sizes[1..]);
      assert Lines(data, sizes)[1..] == Lines(data[k..], sizes[1..]);
      assert data == data[..k] + data[k..];
    }
  }

  lemma {:induction false} LinesSnoc(data: seq<Byte>, sizes: seq<nat>, size: nat)
    ensures var rest := Rest(data, sizes);
            var k := LineLen(rest, Room(size));
            && Lines(data, sizes + [size]) == Lines(data, sizes) + [rest[..k]]
            && Rest(data, sizes + [size]) == rest[k..]
    decreases |sizes|
  {
    if sizes == [] {
      assert sizes + [size] == [size] && [size][1..] == [];
    } else {
      var k := LineLen(data, Room(sizes[0]));
      assert (sizes + [size])[1..] == sizes[1..] + [size];
      LinesSnoc(data[k..], sizes[1..], size);
    }
  }

  /** Successive buffered calls, however the kernel splits the stream. */
  method BufferedLines(reader: Reader, dst: array<Byte>, sizes: seq<nat>) returns (lines: seq<seq<Byte>>)
    requires reader.Valid() && dst != reader.buf && 0 < dst.Length && Fail !in reader.fd.script
    requires forall i :: 0 <= i < |sizes| ==> sizes[i] <= dst.Length
    modifies reader, reader.buf, reader.fd, dst
    ensures reader.Valid()
    ensures lines == Lines(old(reader.Ahead()), sizes) && reader.Ahead() == Rest(old(reader.Ahead()), sizes)
  {
    hide Reader.Ahead, LineLen, Lines, Rest;
    ghost var data := reader.Ahead();
    LinesNone(data);
    lines := [];
    for i := 0 to |sizes|
      invariant reader.Valid() && Fail !in reader.fd.script
      invariant lines == Lines(data, sizes[..i]) && reader.Ahead() == Rest(data, sizes[..i])
    {
      assert sizes[..i + 1] == sizes[..i] + [sizes[i]];
      LinesSnoc(data, sizes[..i], sizes[i]);
      var r := reader.Readline(dst, sizes[i]);
      lines := lines + [dst[..Min(r, Room(sizes[i]))]];
    }
    assert sizes[..|sizes|] == sizes;
  }

  /** Successive unbuffered calls store the same lines. */
  method UnbufferedLines(fd: Descriptor, dst: array<Byte>, sizes: seq<nat>) returns (lines: seq<seq<Byte>>)
    requires 0 < dst.Length && Fail !in fd.script && Eintr !in fd.script
    requires forall i :: 0 <= i < |sizes| ==> sizes[i] <= dst.Length
    modifies fd, dst
    ensures lines == Lines(old(fd.stream), sizes) && fd.stream == Rest(old(fd.stream), sizes)
  {
    hide LineLen, Lines, Rest;
    ghost var data := fd.stream;
    LinesNone(data);
    lines := [];
    for i := 0 to |sizes|
      invariant Fail !in fd.script && Eintr !in fd.script
      invariant lines == Lines(data, sizes[..i]) && fd.stream == Rest(data, sizes[..i])
    {
      assert sizes[..i + 1] == sizes[..i] + [sizes[i]];
      LinesSnoc(data, sizes[..i], sizes[i]);
      LineLast(fd.stream, Room(sizes[i]));
      var r := ReadlineUnbuffered(fd, dst, sizes[i]);
      var len := if r == 0 || dst[r - 1] == NEWLINE then r else r - 1;
      lines := lines + [dst[..len]];
    }
    assert sizes[..|sizes|] == sizes;
  }

  lemma LinesNone(data: seq<Byte>)
    ensures Lines(data, []) == [] && Rest(data, []) == data
  {
  }

  lemma LineLast(data: seq<Byte>, room: nat)
    ensures LineLen(data, room) <= |data|
  {
  }
}

/** Presentation to network form: `inet_pton4` and `inet_pton6`. */
module InetPton {
  import opened Common

  /** Position of `ch` in "0123456789". */
  function DecValue(ch: char): Option<nat> {
    if '0' <= ch <= '9' then Some(ch as int - '0' as int) else None
  }

  /** Position of `ch` in "0123456789abcdef" or in its upper-case form. */
  function HexValue(ch: char): (r: Option<nat>)
    ensures r.Some? ==> r.value < 16
  {
    if '0' <= ch <= '9' then Some(ch as int - '0' as int)
    else if 'a' <= ch <= 'f' then Some(ch as int - 'a' as int + 10)
    else if 'A' <= ch <= 'F' then Some(ch as int - 'A' as int + 10)
    else None
  }

  predicate AtEnd(rest: string) { rest == [] || rest[0] == '\0' }

  /** One character read: the scan goes on in a new state, or it stops with a result. */
  datatype Outcome<S, R> = Go(state: S) | Stop(result: Option<R>)

  /**
   State of the dotted-quad scan: the unread text, the octets already closed
   by a dot, and the value of the open one, which has a digit iff `saw`.
   */
  datatype State4 = State4(rest: string, done: seq<Byte>, cur: Byte, saw: bool) {
    ghost predicate Valid() { |done| <= 3 }
  }

  function Step4(s: State4): (r: Outcome<State4, seq<Byte>>)
    requires s.Valid()
    ensures r.Go? ==> r.state.Valid() && |r.state.rest| < |s.rest|
    ensures r.Stop? && r.result.Some? ==> |r.result.value| == 4
  {
    if AtEnd(s.rest) then
      Stop(if |s.done| == 3 && s.saw then Some(s.done + [s.cur]) else None)
    else
      match DecValue(s.rest[0])
      case Some(d) =>
        var value: int := s.cur;
        if value * 10 + d > 255 then Stop(None)
        else Go(State4(s.rest[1..], s.done, value * 10 + d, true))
      case None =>
        if s.rest[0] == '.' && s.saw && |s.done| < 3 then
          Go(State4(s.rest[1..], s.done + [s.cur], 0, false))
        else Stop(None)
  }

  /** The four bytes that a dotted quad denotes. */
  function Scan4(s: State4): (r: Option<seq<Byte>>)
    requires s.Valid()
    ensures r.Some? ==> |r.value| == 4
    decreases |s.rest|
  {
    match Step4(s)
    case Go(s') => Scan4(s')
    case Stop(r) => r
  }

  function Pton4(src: string): (r: Option<seq<Byte>>)
    ensures r.Some? ==> |r.value| == 4
  {
    Scan4(State4(src, [], 0, false))
  }

  /** The bytes written before `::` is expanded, and how many of them precede it. */
  datatype Scanned = Scanned(out: seq<Byte>, colon: Option<nat>) {
    ghost predicate Valid() {
      |out| <= 16 && (colon.Some? ==> colon.value <= |out|)
    }
    function Put(w: Word): Scanned { Scanned(out + [w / 256, w % 256], colon) }
  }

  /**
   State of the one pass over hexadecimal groups: the unread text, the text
   from the start of the current group, that group's value so far, whether it
   has a digit, and what has been written.
   */
  datatype State6 = State6(rest: string, tok: string, val: Word, saw: bool, s: Scanned)

  function Step6(st: State6): (r: Outcome<State6, Scanned>)
    requires st.s.Valid()
    ensures r.Go? ==> r.state.s.Valid() && |r.state.rest| < |st.rest|
    ensures r.Stop? && r.result.Some? ==> r.result.value.Valid()
  {
    var State6(rest, tok, val, saw, s) := st;
    if AtEnd(rest) then
      Stop(if !saw then Some(s) else if |s.out| + 2 > 16 then None else Some(s.Put(val)))
    else
      match HexValue(rest[0])
      case Some(d) =>
        var value: int := val;
        if value * 16 + d > 0xffff then Stop(None)
        else Go(State6(rest[1..], tok, value * 16 + d, true, s))
      case None =>
        if rest[0] == ':' then
          if !saw then
            if s.colon.Some? then Stop(None)
            else Go(State6(rest[1..], rest[1..], val, false, s.(colon := Some(|s.out|))))
          else if |s.out| + 2 > 16 then Stop(None)
          else Go(State6(rest[1..], rest[1..], 0, false, s.Put(val)))
        else if rest[0] == '.' && |s.out| + 4 <= 16 && Pton4(tok).Some? then
          Stop(Some(Scanned(s.out + Pton4(tok).value, s.colon)))
        else Stop(None)
  }

  function Scan6(st: State6): (r: Option<Scanned>)
    requires st.s.Valid()
    ensures r.Some? ==> r.value.Valid()
    decreases |st.rest|
  {
    match Step6(st)
    case Go(st') => Scan6(st')
    case Stop(r) => r
  }

  /** The scan of a whole text. */
  function ScanText(text: string): (r: Option<Scanned>)
    ensures r.Some? ==> r.value.Valid()
  {
    Scan6(State6(text, text, 0, false, Scanned([], None)))
  }

  /** What the backward shift leaves when `::` was read after `c` bytes of `out`. */
  function Expand(out: seq<Byte>, c: nat): (b: seq<Byte>)
    requires c <= |out| <= 16
    ensures |b| == 16
  {
    if |out| == 16 then out[..c] + Zeros(16 - c)
    else out[..c] + Zeros(16 - |out|) + out[c..]
  }

  function Finish(s: Scanned): (r: Option<seq<Byte>>)
    requires s.Valid()
    ensures r.Some? ==> |r.value| == 16
  {
    match s.colon
    case Some(c) => Some(Expand(s.out, c))
    case None => if |s.out| == 16 then Some(s.out) else None
  }

  /** The address that a text denotes, or None when the text is refused. */
  function Pton6(src: string): (r: Option<seq<Byte>>)
    ensures r.Some? ==> |r.value| == 16
  {
    var start := if CharAt(src, 0) == ':' then 1 else 0;
    if start == 1 && CharAt(src, 1) != ':' then None
    else
      var text := src[start..];
      match ScanText(text)
      case None => None
      case Some(s) => Finish(s)
  }

  /** Writes `dst` at `at`, or leaves it alone, as the source promises. */
  method InetPton4(src: string, dst: array<Byte>, at: nat) returns (ok: bool)
    requires at + 4 <= dst.Length
    modifies dst
    ensures ok == Pton4(src).Some?
    ensures ok ==> dst[..] == old(dst[..at]) + Pton4(src).value + old(dst[at + 4..])
    ensures !ok ==> dst[..] == old(dst[..])
  {
    var tmp := new Byte[4](_ => 0);
    var sawDigit, octets, tp, i := false, 0, 0, 0;
    while CharAt(src, i) != '\0'
      invariant i <= |src| && 0 <= tp <= 3
      invariant octets == tp + if sawDigit then 1 else 0
      invariant Pton4(src) == Scan4(State4(src[i..], tmp[..tp], tmp[tp], sawDigit))
      invariant dst[..] == old(dst[..])
      decreases |src| - i
    {
      var ch := src[i];
      i := i + 1;
      var digit := DecValue(ch);
      if digit.Some? {
        var value: int := tmp[tp];
        value := value * 10 + digit.value;
        if value > 255 {
          return false;
        }
        tmp[tp] := value;
        if !sawDigit {
          octets, sawDigit := octets + 1, true;
          assert octets <= 4;  // so the exit for a fifth octet is never taken
        }
      } else if ch == '.' && sawDigit {
        if octets == 4 {
          return false;
        }
        ghost var closed := tmp[..tp] + [tmp[tp]];
        tp := tp + 1;
        tmp[tp] := 0;
        sawDigit := false;
        assert tmp[..tp] == closed;
      } else {
        return false;
      }
    }
    if octets < 4 {
      return false;
    }
    assert Pton4(src) == Some(tmp[..]) by { assert tmp[..3] + [tmp[3]] == tmp[..]; }
    forall k | 0 <= k < 4 {
      dst[at + k] := tmp[k];
    }
    return true;
  }

  /** The shift by hand: `colonp[0..n]` moves to the end of the buffer, in place. */
  method ShiftToEnd(tmp: array<Byte>, colonp: nat, tp: nat)
    requires tmp.Length == 16 && colonp <= tp <= 16
    requires forall k :: tp <= k < 16 ==> tmp[k] == 0
    modifies tmp
    ensures tmp[..] == Expand(old(tmp[..tp]), colonp)
  {
    ghost var out := tmp[..tp];
    ghost var gap := 16 - tp;
    var n := tp - colonp;
    var i := 1;
    while i <= n
      invariant 1 <= i <= n + 1
      invariant forall k :: 0 <= k <= tp - i ==> tmp[k] == out[k]
      invariant forall k :: tp - i < k <= 16 - i ==> tmp[k] == 0
      invariant forall k :: 16 - i < k < 16 ==> tmp[k] == if gap == 0 then 0 else out[k - gap]
    {
      tmp[16 - i] := tmp[colonp + n - i];
      tmp[colonp + n - i] := 0;
      i := i + 1;
    }
    ghost var b := Expand(out, colonp);
    assert forall k :: 0 <= k < colonp ==> tmp[k] == b[k];
    assert forall k :: colonp <= k < colonp + gap ==> tmp[k] == b[k];
    assert forall k :: colonp + gap <= k < 16 ==> tmp[k] == b[k];
  }

  /** The loop of `inet_pton6`, which fills `tmp` from the front. */
  method ScanGroups(src: string, start: nat, tmp: array<Byte>)
    returns (ok: bool, tp: nat, colonp: Option<nat>)
    requires start <= |src|
    requires tmp.Length == 16 && forall k :: 0 <= k < 16 ==> tmp[k] == 0
    modifies tmp
    ensures ok == ScanText(src[start..]).Some?
    ensures ok ==> tp <= 16 && forall k :: tp <= k < 16 ==> tmp[k] == 0
    ensures ok ==> ScanText(src[start..]) == Some(Scanned(tmp[..tp], colonp))
  {
    tp, colonp := 0, None;
    var i, curtok, sawXdigit, val: int := start, start, false, 0;
    ghost var st := State6(src[start..], src[start..], 0, false, Scanned([], None));
    while CharAt(src, i) != '\0'
      invariant 0 <= curtok <= i <= |src|
      invariant 0 <= val <= 0xffff
      invariant st.s.Valid() && |st.s.out| == tp && tmp[..] == st.s.out + Zeros(16 - tp)
      invariant st == State6(src[i..], src[curtok..], val, sawXdigit, Scanned(st.s.out, colonp))
      invariant ScanText(src[start..]) == Scan6(st)
      decreases |src| - i
    {
      ghost var step := Step6(st);
      var ch := src[i];
      i := i + 1;
      assert st.rest[0] == ch && st.rest[1..] == src[i..];
      var digit := HexValue(ch);
      if digit.Some? {
        val := val * 16 + digit.value;
        if val > 0xffff {
          return false, tp, colonp;
        }
        sawXdigit := true;
      } else if ch == ':' {
        curtok := i;
        if !sawXdigit {
          if colonp.Some? {
            return false, tp, colonp;
          }
          colonp := Some(tp);
        } else {
          if tp + 2 > 16 {
            return false, tp, colonp;
          }
          tp := PutWord(tmp, tp, val);
          sawXdigit, val := false, 0;
        }
      } else {
        if ch != '.' || tp + 4 > 16 {
          return false, tp, colonp;
        }
        var quad := InetPton4(src[curtok..], tmp, tp);
        if !quad {
          return false, tp, colonp;
        }
        tp := tp + 4;
        assert tmp[..tp] == st.s.out + Pton4(src[curtok..]).value;
        return true, tp, colonp;  // the end of the text was seen by inet_pton4
      }
      st := step.state;
    }
    if sawXdigit {
      if tp + 2 > 16 {
        return false, tp, colonp;
      }
      tp := PutWord(tmp, tp, val);
      assert tmp[..tp] == st.s.Put(val).out;
    } else {
      assert tmp[..tp] == st.s.out;
    }
    return true, tp, colonp;
  }

  method InetPton6(src: string, dst: array<Byte>) returns (ok: bool)
    requires dst.Length == 16
    modifies dst
    ensures ok == Pton6(src).Some?
    ensures ok ==> dst[..] == Pton6(src).value
    ensures !ok ==> dst[..] == old(dst[..])
  {
    var tmp := new Byte[16](_ => 0);
    var start := 0;
    if CharAt(src, 0) == ':' {
      start := 1;
      if CharAt(src, 1) != ':' {
        return false;
      }
    }
    var tp, colonp;
    ok, tp, colonp := ScanGroups(src, start, tmp);
    if !ok {
      return false;
    }
    if colonp.Some? {
      ShiftToEnd(tmp, colonp.value, tp);
      tp := 16;
    }
    if tp != 16 {
      return false;
    }
    assert tmp[..16] == tmp[..];
    forall k | 0 <= k < 16 {
      dst[k] := tmp[k];
    }
    assert dst[..] == tmp[..];
    return true;
  }

  /** Stores a group's two bytes and advances the output position past them. */
  method PutWord(tmp: array<Byte>, at: nat, val: Word) returns (tp: nat)
    requires at + 2 <= tmp.Length
    modifies tmp
    ensures tp == at + 2
    ensures tmp[..] == old(tmp[..at]) + [val / 256, val % 256] + old(tmp[at + 2..])
    ensures tmp[..tp] == old(tmp[..at]) + [val / 256, val % 256]
  {
    tmp[at] := val / 256;
    tmp[at + 1] := val % 256;
    tp := at + 2;
  }
}

/** Parsing undoes printing. */
module InetRoundTrip {
  import opened Common
  import opened InetText
  import opened InetPton

  // ----- scanning one numeral

  /** The value that the digits of a decimal numeral have when read in base 16. */
  function ReadAsHex(n: nat): nat {
    if n < 10 then n else 16 * ReadAsHex(n / 10) + n % 10
  }

  lemma ReadAsHexBound(b: Byte)
    ensures ReadAsHex(b) <= 0x299
  {
    assert ReadAsHex(b / 10 / 10) <= 2;
  }

  /** The last digit of a numeral goes with the text after it. */
  lemma HexUnsnoc(text: string, w: nat, t: string)
    requires text == Hex(w) + t
    ensures text == if w < 16 then [Digit(w)] + t else Hex(w / 16) + ([Digit(w % 16)] + t)
  {
  }

  lemma DecUnsnoc(text: string, n: nat, t: string)
    requires text == Dec(n) + t
    ensures text == if n < 10 then [Digit(n)] + t else Dec(n / 10) + ([Digit(n % 10)] + t)
  {
  }

  lemma StepDigit(d: nat, t: string, tok: string, v: nat, saw: bool, s: Scanned)
    requires d < 16 && 16 * v + d <= 0xffff && s.Valid()
    ensures Step6(State6([Digit(d)] + t, tok, v, saw, s)) == Go(State6(t, tok, 16 * v + d, true, s))
  {
    assert HexValue(Digit(d)) == Some(d);
    assert ([Digit(d)] + t)[1..] == t;
  }

  lemma {:induction false} ScanHex(text: string, w: Word, t: string, tok: string, s: Scanned)
    requires s.Valid() && text == Hex(w) + t
    ensures Scan6(State6(text, tok, 0, false, s)) == Scan6(State6(t, tok, w, true, s))
    decreases w
  {
    hide Step6;
    HexUnsnoc(text, w, t);
    var d := w % 16;
    if w < 16 {
      StepDigit(d, t, tok, 0, false, s);
    } else {
      var u := [Digit(d)] + t;
      ScanHex(text, w / 16, u, tok, s);
      StepDigit(d, t, tok, w / 16, true, s);
    }
  }

  lemma {:induction false} ScanDecAsHex(text: string, b: Byte, t: string, tok: string, s: Scanned)
    requires s.Valid() && text == Dec(b) + t
    ensures ReadAsHex(b) <= 0xffff
    ensures Scan6(State6(text, tok, 0, false, s)) == Scan6(State6(t, tok, ReadAsHex(b), true, s))
    decreases b
  {
    hide Step6;
    ReadAsHexBound(b);
    DecUnsnoc(text, b, t);
    var d := b % 10;
    if b < 10 {
      StepDigit(d, t, tok, 0, false, s);
    } else {
      var u := [Digit(d)] + t;
      ScanDecAsHex(text, b / 10, u, tok, s);
      StepDigit(d, t, tok, ReadAsHex(b / 10), true, s);
    }
  }

  lemma StepDigit4(d: nat, t: string, done: seq<Byte>, v: Byte, saw: bool)
    requires d < 10 && 10 * v + d <= 255 && |done| <= 3
    ensures Step4(State4([Digit(d)] + t, done, v, saw)) == Go(State4(t, done, 10 * v + d, true))
  {
    assert DecValue(Digit(d)) == Some(d);
    assert ([Digit(d)] + t)[1..] == t;
  }

  lemma {:induction false} ScanDec(text: string, b: Byte, t: string, done: seq<Byte>)
    requires |done| <= 3 && text == Dec(b) + t
    ensures Scan4(State4(text, done, 0, false)) == Scan4(State4(t, done, b, true))
    decreases b
  {
    hide Step4;
    DecUnsnoc(text, b, t);
    var d := b % 10;
    if b < 10 {
      StepDigit4(d, t, done, 0, false);
    } else {
      var u := [Digit(d)] + t;
      ScanDec(text, b / 10, u, done);
      StepDigit4(d, t, done, b / 10, true);
    }
  }

  // ----- dotted quads

  lemma ScanOctetDot(text: string, b: Byte, t: string, done: seq<Byte>)
    requires |done| < 3 && text == Dec(b) + "." + t
    ensures Scan4(State4(text, done, 0, false)) == Scan4(State4(t, done + [b], 0, false))
  {
    var u := "." + t;
    assert text == Dec(b) + u;
    ScanDec(text, b, u, done);
    assert u[1..] == t;
  }

  lemma QuadTail(text: string, b: Byte, done: seq<Byte>)
    requires |done| == 3 && text == Dec(b)
    ensures Scan4(State4(text, done, 0, false)) == Some(done + [b])
  {
    ScanDec(text, b, "", done);
  }

  /** `inet_pton4` applied to the text of four octets returns those octets. */
  lemma RoundTrip4(q: seq<Byte>)
    requires |q| == 4
    ensures Pton4(Quad(q)) == Some(q)
  {
    hide Step4;
    var t3 := Dec(q[3]);
    var t2 := Dec(q[2]) + "." + t3;
    var t1 := Dec(q[1]) + "." + t2;
    QuadUncons(q);
    var d1, d2, d3 := [q[0]], [q[0], q[1]], [q[0], q[1], q[2]];
    assert [] + [q[0]] == d1 && d1 + [q[1]] == d2 && d2 + [q[2]] == d3 && d3 + [q[3]] == q;
    ScanOctetDot(Quad(q), q[0], t1, []);
    ScanOctetDot(t1, q[1], t2, d1);
    ScanOctetDot(t2, q[2], t3, d2);
    QuadTail(t3, q[3], d3);
  }

  lemma QuadUncons(q: seq<Byte>)
    requires |q| == 4
    ensures Quad(q) == Dec(q[0]) + "." + (Dec(q[1]) + "." + (Dec(q[2]) + "." + Dec(q[3])))
  {
  }

  lemma StepDot(t: string, tok: string, v: Word, saw: bool, s: Scanned, q: seq<Byte>)
    requires |s.out| <= 12 && s.Valid() && Pton4(tok) == Some(q)
    ensures Step6(State6("." + t, tok, v, saw, s)) == Stop(Some(Scanned(s.out + q, s.colon)))
  {
  }

  /** A quad that starts a group is handed to `inet_pton4` at its first dot. */
  lemma ScanQuad(text: string, q: seq<Byte>, s: Scanned)
    requires |q| == 4 && text == Quad(q) && |s.out| <= 12 && s.Valid()
    ensures Scan6(State6(text, text, 0, false, s)) == Some(Scanned(s.out + q, s.colon))
  {
    hide Step6;
    var u := Dec(q[1]) + "." + (Dec(q[2]) + "." + Dec(q[3]));
    var t := "." + u;
    QuadUncons(q);
    assert text == Dec(q[0]) + t;
    ScanDecAsHex(text, q[0], t, text, s);
    RoundTrip4(q);
    StepDot(u, text, ReadAsHex(q[0]), true, s, q);
  }

  // ----- hexadecimal groups

  /** What is written once the words `ws` have been scanned. */
  function After(s: Scanned, ws: seq<Word>): Scanned {
    Scanned(s.out + BytesOf(ws), s.colon)
  }

  lemma AfterCons(s: Scanned, ws: seq<Word>)
    requires ws != []
    ensures After(s.Put(ws[0]), ws[1..]) == After(s, ws)
  {
  }

  lemma AfterNone(s: Scanned)
    ensures After(s, []) == s
  {
  }

  /** The text of several groups is its first group, a colon, and the others. */
  lemma GroupsUncons(text: string, ws: seq<Word>, t: string)
    requires 2 <= |ws| && text == Groups(ws) + ":" + t
    ensures text == Hex(ws[0]) + ":" + (Groups(ws[1..]) + ":" + t)
  {
    var h, g := Hex(ws[0]), Groups(ws[1..]);
    assert Groups(ws) == h + ":" + g;
    hide Groups, Hex;
    JoinAssoc(h, g, t);
  }

  lemma StepColon(t: string, tok: string, w: Word, s: Scanned)
    requires |s.out| <= 14 && s.Valid()
    ensures Step6(State6(":" + t, tok, w, true, s)) == Go(State6(t, t, 0, false, s.Put(w)))
  {
    assert (":" + t)[1..] == t;
  }

  lemma ScanGroupColon(text: string, w: Word, t: string, tok: string, s: Scanned)
    requires |s.out| <= 14 && s.Valid() && text == Hex(w) + ":" + t
    ensures Scan6(State6(text, tok, 0, false, s)) == Scan6(State6(t, t, 0, false, s.Put(w)))
  {
    var u := ":" + t;
    assert text == Hex(w) + u;
    ScanHex(text, w, u, tok, s);
    StepColon(t, tok, w, s);
  }

  lemma {:induction false} ScanGroupsColon(text: string, ws: seq<Word>, t: string, tok: string, s: Scanned)
    requires 0 < |ws| && |s.out| + 2 * |ws| <= 16 && s.Valid() && text == Groups(ws) + ":" + t
    ensures Scan6(State6(text, tok, 0, false, s)) == Scan6(State6(t, t, 0, false, After(s, ws)))
    decreases |ws|
  {
    var s' := s.Put(ws[0]);
    AfterCons(s, ws);
    if |ws| == 1 {
      ScanGroupColon(text, ws[0], t, tok, s);
      AfterNone(s');
    } else {
      GroupsUncons(text, ws, t);
      var more := Groups(ws[1..]) + ":" + t;
      ScanGroupColon(text, ws[0], more, tok, s);
      ScanGroupsColon(more, ws[1..], t, more, s');
    }
  }

  lemma ScanLastGroup(w: Word, tok: string, s: Scanned)
    requires |s.out| <= 14 && s.Valid()
    ensures Scan6(State6(Hex(w), tok, 0, false, s)) == Some(s.Put(w))
  {
    ScanHex(Hex(w), w, "", tok, s);
  }

  lemma ScanGroupsEnd(ws: seq<Word>, tok: string, s: Scanned)
    requires |s.out| + 2 * |ws| <= 16 && s.Valid()
    ensures Scan6(State6(Groups(ws), tok, 0, false, s)) == Some(After(s, ws))
  {
    if ws == [] {
      assert After(s, ws) == s;
    } else {
      var init, w := ws[..|ws| - 1], ws[|ws| - 1];
      assert ws == init + [w];
      GroupsSnoc(init, w);
      BytesOfConcat(init, [w]);
      assert After(s, init).Put(w) == After(s, ws);
      if init == [] {
        assert After(s, init) == s;
        ScanLastGroup(w, tok, s);
      } else {
        ScanGroupsColon(Groups(ws), init, Hex(w), tok, s);
        ScanLastGroup(w, Hex(w), After(s, init));
      }
    }
  }

  /** A text starts with a colon only if nothing precedes its `::`. */
  lemma {:induction false} HexStart(w: nat)
    ensures Hex(w)[0] != ':'
  {
    if w >= 16 {
      HexStart(w / 16);
    }
  }

  lemma GroupsStart(ws: seq<Word>)
    requires ws != []
    ensures Groups(ws) != [] && Groups(ws)[0] != ':'
  {
    HexStart(ws[0]);
  }

  // ----- whole texts

  lemma StepColons(t: string, tok: string, s: Scanned)
    requires s.Valid() && s.colon.None?
    ensures Step6(State6(":" + t, tok, 0, false, s))
         == Go(State6(t, t, 0, false, Scanned(s.out, Some(|s.out|))))
  {
    assert (":" + t)[1..] == t;
  }

  lemma ColonsUncons(text: string, pre: string, tail: string)
    requires text == pre + "::" + tail
    ensures text == pre + ":" + (":" + tail)
    ensures pre == [] ==> CharAt(text, 0) == ':' && CharAt(text, 1) == ':' && text[1..] == ":" + tail
    ensures pre != [] ==> CharAt(text, 0) == pre[0] && text[0..] == text
  {
  }

  lemma PtonByScan(text: string, start: nat, s: Scanned)
    requires start == if CharAt(text, 0) == ':' then 1 else 0
    requires start == 1 ==> CharAt(text, 1) == ':'
    requires ScanText(text[start..]) == Some(s)
    ensures Pton6(text) == Finish(s)
  {
  }

  /** The parse of a text in which the words `pre` precede the `::`. */
  lemma ScanAroundColons(text: string, pre: seq<Word>, tail: string, s: Scanned)
    requires |pre| <= 8 && text == Groups(pre) + "::" + tail && s.Valid()
    requires Scan6(State6(tail, tail, 0, false, Scanned(BytesOf(pre), Some(2 * |pre|)))) == Some(s)
    ensures Pton6(text) == Finish(s)
  {
    var u := ":" + tail;
    var s0 := Scanned([], None);
    ColonsUncons(text, Groups(pre), tail);
    if pre == [] {
      StepColons(tail, u, s0);
      PtonByScan(text, 1, s);
    } else {
      GroupsStart(pre);
      ScanGroupsColon(text, pre, u, text, s0);
      assert After(s0, pre) == Scanned(BytesOf(pre), None);
      StepColons(tail, u, After(s0, pre));
      PtonByScan(text, 0, s);
    }
  }

  /**
   Whatever run of words the text abbreviates, the parser restores the words
   around it and fills the gap with zeros. When nothing is abbreviated (`len`
   is 0, a `::` written in a full address), what follows is lost.
   */
  lemma PtonOfAbbreviated(ws: seq<Word>, run: ZeroRun)
    requires |ws| == 8 && run.base + run.len <= 8
    requires !EmbedsIPv4(ws, run)
    ensures Pton6(TextWith(ws, Some(run))) == Some(
      if run.len == 0 then BytesOf(ws[..run.base]) + Zeros(16 - 2 * run.base)
      else BytesOf(ws[..run.base]) + Zeros(2 * run.len) + BytesOf(ws[run.base + run.len..]))
  {
    hide Step6;
    var pre, post := ws[..run.base], ws[run.base + run.len..];
    var s := Scanned(BytesOf(pre), Some(2 * |pre|));
    ScanGroupsEnd(post, Groups(post), s);
    ScanAroundColons(TextWith(ws, Some(run)), pre, Groups(post), After(s, post));
    var out := BytesOf(pre) + BytesOf(post);
    assert out[..2 * |pre|] == BytesOf(pre) && out[2 * |pre|..] == BytesOf(post);
  }

  lemma SplitAroundZeros(ws: seq<Word>, run: ZeroRun)
    requires AllZero(ws, run.base, run.len)
    ensures BytesOf(ws) == BytesOf(ws[..run.base]) + Zeros(2 * run.len)
                         + BytesOf(ws[run.base + run.len..])
  {
    var pre, mid, post := ws[..run.base], ws[run.base..run.base + run.len], ws[run.base + run.len..];
    assert ws == (pre + mid) + post;
    BytesOfConcat(pre + mid, post);
    BytesOfConcat(pre, mid);
    BytesOfZeros(mid);
  }

  /** A text that starts with `::` and goes on to write all the other bytes. */
  lemma PtonOfLeadingColons(ws: seq<Word>, n: nat, tail: string)
    requires |ws| == 8 && 1 <= n <= 8 && AllZero(ws, 0, n)
    requires Scan6(State6(tail, tail, 0, false, Scanned([], Some(0))))
          == Some(Scanned(BytesOf(ws[n..]), Some(0)))
    ensures Pton6("::" + tail) == Some(BytesOf(ws))
  {
    var out := BytesOf(ws[n..]);
    assert "::" + tail == Groups([]) + "::" + tail;
    ScanAroundColons("::" + tail, [], tail, Scanned(out, Some(0)));
    SplitAroundZeros(ws, ZeroRun(0, n));
    assert Expand(out, 0) == BytesOf(ws[..0]) + Zeros(2 * n) + out;
  }

  lemma PtonOfCompatible(ws: seq<Word>)
    requires |ws| == 8 && AllZero(ws, 0, 6)
    ensures Pton6("::" + Quad(BytesOf(ws[6..]))) == Some(BytesOf(ws))
  {
    var quad := BytesOf(ws[6..]);
    ScanQuad(Quad(quad), quad, Scanned([], Some(0)));
    assert [] + quad == quad;
    PtonOfLeadingColons(ws, 6, Quad(quad));
  }

  lemma PtonOfMapped(ws: seq<Word>)
    requires |ws| == 8 && AllZero(ws, 0, 5) && ws[5] == 0xffff
    ensures Pton6("::ffff:" + Quad(BytesOf(ws[6..]))) == Some(BytesOf(ws))
  {
    hide Step6;
    var s, quad := Scanned([], Some(0)), BytesOf(ws[6..]);
    HexFfff();
    var tail := Hex(0xffff) + ":" + Quad(quad);
    ScanGroupColon(tail, 0xffff, Quad(quad), tail, s);
    ScanQuad(Quad(quad), quad, s.Put(0xffff));
    assert BytesOf(ws[5..]) == s.Put(0xffff).out + quad by { assert ws[5..][1..] == ws[6..]; }
    PtonOfLeadingColons(ws, 5, tail);
    assert "::ffff:" + Quad(quad) == "::" + tail;
  }

  lemma PtonOfPlain(ws: seq<Word>)
    requires |ws| == 8
    ensures Pton6(Groups(ws)) == Some(BytesOf(ws))
  {
    GroupsStart(ws);
    var text := Groups(ws);
    assert text[0..] == text;
    ScanGroupsEnd(ws, text, Scanned([], None));
    assert After(Scanned([], None), ws).out == BytesOf(ws);
  }

  /** Any admissible abbreviation, not only the printer's choice, parses back. */
  lemma PtonOfText(ws: seq<Word>, r: Option<ZeroRun>)
    requires |ws| == 8
    requires r.Some? ==> 1 <= r.value.len && AllZero(ws, r.value.base, r.value.len)
    ensures Pton6(TextWith(ws, r)) == Some(BytesOf(ws))
  {
    if r.None? {
      PtonOfPlain(ws);
    } else if EmbedsIPv4(ws, r.value) {
      if r.value.len == 6 { PtonOfCompatible(ws); } else { PtonOfMapped(ws); }
    } else {
      PtonOfAbbreviated(ws, r.value);
      SplitAroundZeros(ws, r.value);
    }
  }

  /** For every address, parsing its presentation form gives the address back. */
  lemma RoundTrip6(src: seq<Byte>)
    requires |src| == 16
    ensures Pton6(Text6(src)) == Some(src)
  {
    var ws := WordsOf(src);
    PtonOfText(ws, BestRun(ws));
    BytesOfWordsOf(src);
  }

  /** Distinct addresses have distinct presentation forms. */
  lemma Text6Injective(a: seq<Byte>, b: seq<Byte>)
    requires |a| == |b| == 16
    ensures Text6(a) == Text6(b) <==> a == b
  {
    RoundTrip6(a);
    RoundTrip6(b);
  }

  lemma ZeroTail(ws: seq<Word>, at: nat)
    requires at <= |ws|
    ensures AllZero(ws[at..], 0, |ws| - at) <==> AllZero(ws, at, |ws| - at)
  {
    assert forall k :: at <= k < |ws| ==> ws[k] == ws[at..][k - at];
  }

  /**
   `::` in a full address is not silently ignored: the address is kept exactly
   when every word written after the `::` is zero.
   */
  lemma ColonsInFullAddress(ws: seq<Word>, at: nat)
    requires |ws| == 8 && at <= 8
    ensures Pton6(Groups(ws[..at]) + "::" + Groups(ws[at..])) == Some(BytesOf(ws))
       <==> AllZero(ws, at, 8 - at)
  {
    hide Pton6, Groups, BytesOf, AllZero;
    PtonOfAbbreviated(ws, ZeroRun(at, 0));
    var tail := ws[at..];
    assert ws == ws[..at] + tail;
    BytesOfConcat(ws[..at], tail);
    ZeroBytes(tail);
    SameTail(BytesOf(ws[..at]), BytesOf(tail), Zeros(16 - 2 * at));
    ZeroTail(ws, at);
  }

  lemma SameTail(head: seq<Byte>, x: seq<Byte>, y: seq<Byte>)
    ensures head + x == head + y <==> x == y
  {
    assert (head + x)[|head|..] == x && (head + y)[|head|..] == y;
  }

  lemma {:induction false} ZeroBytes(ws: seq<Word>)
    ensures BytesOf(ws) == Zeros(2 * |ws|) <==> AllZero(ws, 0, |ws|)
  {
    if ws != [] {
      ZeroBytes(ws[1..]);
      var b, z := BytesOf(ws), Zeros(2 * |ws|);
      assert b[2..] == BytesOf(ws[1..]) && z[2..] == Zeros(2 * |ws[1..]|);
      assert b == z <==> b[0] == 0 && b[1] == 0 && b[2..] == z[2..] by {
        assert b == [b[0], b[1]] + b[2..] && z == [0, 0] + z[2..];
      }
      if AllZero(ws[1..], 0, |ws| - 1) && ws[0] == 0 {
        assert forall k :: 1 <= k < |ws| ==> ws[k] == ws[1..][k - 1];
      }
    }
  }
}

/**
 Exactly which texts the address parsers accept, and what each denotes, stated
 on the fields between separators and not on the scan.
 */
module InetGrammar {
  import opened Common
  import opened InetText
  import opened InetPton
  import opened InetRoundTrip

  // ----- fields and numerals

  /** The fields of a C string, separated by `sep`; there is always a last one. */
  function Fields(s: string, sep: char): (fs: seq<string>)
    ensures fs != []
  {
    if AtEnd(s) then [""]
    else
      var fs := Fields(s[1..], sep);
      if s[0] == sep then [""] + fs else Extend([s[0]], fs)
  }

  /** Puts `p` in front of the first field. */
  function Extend(p: string, fs: seq<string>): (r: seq<string>)
    requires fs != []
    ensures |r| == |fs|
  {
    [p + fs[0]] + fs[1..]
  }

  predicate IsDecimal(t: string) { forall i :: 0 <= i < |t| ==> DecValue(t[i]).Some? }

  predicate IsHex(t: string) { forall i :: 0 <= i < |t| ==> HexValue(t[i]).Some? }

  function DecimalOf(t: string): nat
    requires IsDecimal(t)
  {
    if t == [] then 0 else 10 * DecimalOf(t[..|t| - 1]) + DecValue(t[|t| - 1]).value
  }

  function HexOf(t: string): nat
    requires IsHex(t)
  {
    if t == [] then 0 else 16 * HexOf(t[..|t| - 1]) + HexValue(t[|t| - 1]).value
  }

  predicate IsOctet(t: string) { t != [] && IsDecimal(t) && DecimalOf(t) <= 255 }

  predicate IsGroup(t: string) { t != [] && IsHex(t) && HexOf(t) <= 0xffff }

  // ----- dotted quads

  predicate AreOctets(fs: seq<string>) { forall i :: 0 <= i < |fs| ==> IsOctet(fs[i]) }

  function Octets(fs: seq<string>): (b: seq<Byte>)
    requires AreOctets(fs)
    ensures |b| == |fs|
  {
    if fs == [] then [] else [DecimalOf(fs[0])] + Octets(fs[1..])
  }

  /** Four decimal numerals up to 255, with any number of leading zeros. */
  predicate IsQuad(t: string) {
    var fs := Fields(t, '.');
    |fs| == 4 && AreOctets(fs)
  }

  function QuadOf(t: string): (b: seq<Byte>)
    requires IsQuad(t)
    ensures |b| == 4
  {
    Octets(Fields(t, '.'))
  }

  /** What is left to decide once the octets `done` have been closed. */
  function Rest4(done: seq<Byte>, fs: seq<string>): Option<seq<Byte>> {
    if |done| + |fs| == 4 && AreOctets(fs) then Some(done + Octets(fs)) else None
  }

  lemma DecimalSnoc(p: string, c: char)
    requires IsDecimal(p) && DecValue(c).Some?
    ensures IsDecimal(p + [c]) && DecimalOf(p + [c]) == 10 * DecimalOf(p) + DecValue(c).value
  {
    assert (p + [c])[..|p|] == p;
  }

  /** Longer numerals are not smaller. */
  lemma {:induction false} DecimalPrefix(p: string, t: string)
    requires IsDecimal(p + t)
    ensures IsDecimal(p) && DecimalOf(p) <= DecimalOf(p + t)
  {
    assert forall i :: 0 <= i < |p| ==> p[i] == (p + t)[i];
    if t == [] {
      assert p + t == p;
    } else {
      var t' := t[..|t| - 1];
      assert (p + t)[..|p + t| - 1] == p + t';
      DecimalPrefix(p, t');
    }
  }

  lemma {:induction false} HexPrefix(p: string, t: string)
    requires IsHex(p + t)
    ensures IsHex(p) && HexOf(p) <= HexOf(p + t)
  {
    assert forall i :: 0 <= i < |p| ==> p[i] == (p + t)[i];
    if t == [] {
      assert p + t == p;
    } else {
      var t' := t[..|t| - 1];
      assert (p + t)[..|p + t| - 1] == p + t';
      HexPrefix(p, t');
    }
  }

  lemma HexSnoc(p: string, c: char)
    requires IsHex(p) && HexValue(c).Some?
    ensures IsHex(p + [c]) && HexOf(p + [c]) == 16 * HexOf(p) + HexValue(c).value
  {
    assert (p + [c])[..|p|] == p;
  }

  /** Moving one character from the text to the open field. */
  lemma ExtendShift(p: string, c: char, fs: seq<string>)
    requires fs != []
    ensures Extend(p, Extend([c], fs)) == Extend(p + [c], fs)
    ensures Extend(p, [""] + fs) == [p] + fs
    ensures Extend("", fs) == fs
  {
    assert p + ([c] + fs[0]) == (p + [c]) + fs[0];
    assert p + "" == p && "" + fs[0] == fs[0];
    assert ([""] + fs)[1..] == fs;
  }

  lemma AreOctetsCons(p: string, fs: seq<string>)
    requires IsOctet(p)
    ensures AreOctets([p] + fs) <==> AreOctets(fs)
  {
    hide IsOctet;
    assert forall i :: 0 <= i < |fs| ==> ([p] + fs)[i + 1] == fs[i];
  }

  lemma OctetsCons(done: seq<Byte>, p: string, fs: seq<string>)
    requires IsOctet(p)
    ensures Rest4(done + [DecimalOf(p)], fs) == Rest4(done, [p] + fs)
  {
    var v: Byte := DecimalOf(p);
    AreOctetsCons(p, fs);
    hide AreOctets, DecimalOf;
    if AreOctets(fs) {
      assert ([p] + fs)[1..] == fs;
      assert (done + [v]) + Octets(fs) == done + ([v] + Octets(fs));
    }
  }

  lemma ScanEnd4(rest: string, done: seq<Byte>, p: string)
    requires |done| <= 3 && IsDecimal(p) && DecimalOf(p) <= 255 && AtEnd(rest)
    ensures Scan4(State4(rest, done, DecimalOf(p), p != [])) == Rest4(done, Extend(p, Fields(rest, '.')))
  {
    assert p + "" == p;
    assert Extend(p, Fields(rest, '.')) == [p];
    if IsOctet(p) {
      assert AreOctets([p]) && [p][1..] == [];
      assert Octets([p]) == [DecimalOf(p)];
    } else {
      assert !IsOctet([p][0]);
    }
  }

  lemma Overflowed4(done: seq<Byte>, p: string, fs: seq<string>)
    requires fs != [] && IsDecimal(p) && 255 < DecimalOf(p)
    ensures Rest4(done, Extend(p, fs)) == None
  {
    var gs := Extend(p, fs);
    assert gs[0] == p + fs[0];
    if IsDecimal(gs[0]) { DecimalPrefix(p, fs[0]); }
    assert !IsOctet(gs[0]);
  }

  lemma NotDecimal4(done: seq<Byte>, p: string, fs: seq<string>, c: char)
    requires fs != [] && DecValue(c).None?
    ensures Rest4(done, Extend(p, Extend([c], fs))) == None
  {
    var gs := Extend(p, Extend([c], fs));
    assert gs[0][|p|] == c;
    assert !IsOctet(gs[0]);
  }

  lemma TooFew4(done: seq<Byte>, p: string, fs: seq<string>)
    requires fs != [] && (p == [] || 3 <= |done|)
    ensures Rest4(done, [p] + fs) == None
  {
    if p == [] { assert !IsOctet(([p] + fs)[0]); }
  }

  /** The scan of a quad in the middle of an octet of which `p` has been read. */
  lemma {:induction false} ScanFields4(rest: string, done: seq<Byte>, p: string)
    requires |done| <= 3 && IsDecimal(p) && DecimalOf(p) <= 255
    ensures Scan4(State4(rest, done, DecimalOf(p), p != []))
         == Rest4(done, Extend(p, Fields(rest, '.')))
    decreases |rest|
  {
    hide Rest4, AreOctets, Octets;
    if AtEnd(rest) {
      ScanEnd4(rest, done, p);
    } else {
      var c, fs := rest[0], Fields(rest[1..], '.');
      ExtendShift(p, c, fs);
      if DecValue(c).Some? {
        DecimalSnoc(p, c);
        if DecimalOf(p + [c]) <= 255 {
          ScanFields4(rest[1..], done, p + [c]);
        } else {
          Overflowed4(done, p + [c], fs);
        }
      } else if c == '.' {
        if p != [] && |done| < 3 {
          ScanFields4(rest[1..], done + [DecimalOf(p)], "");
          ExtendShift("", c, fs);
          OctetsCons(done, p, fs);
        } else {
          TooFew4(done, p, fs);
        }
      } else {
        NotDecimal4(done, p, fs, c);
      }
    }
  }

  /** `inet_pton4` accepts exactly the dotted quads, and returns their octets. */
  lemma Pton4Exactly(src: string)
    ensures Pton4(src) == if IsQuad(src) then Some(QuadOf(src)) else None
  {
    ScanFields4(src, [], "");
    var fs := Fields(src, '.');
    ExtendShift("", '.', fs);
    if IsQuad(src) { assert [] + Octets(fs) == Octets(fs); }
  }

  // ----- groups

  /** A field that may be followed by a colon: a group, or nothing for `::`. */
  function FieldBytes(f: string): seq<Byte> {
    if IsGroup(f) then [HexOf(f) / 256, HexOf(f) % 256] else []
  }

  function AllBytes(fs: seq<string>): seq<Byte> {
    if fs == [] then [] else FieldBytes(fs[0]) + AllBytes(fs[1..])
  }

  /** The last field may also be a dotted quad. */
  function LastBytes(f: string): seq<Byte> {
    if IsQuad(f) then QuadOf(f) else FieldBytes(f)
  }

  /** All bytes written before `::` is expanded. */
  function Payload(fs: seq<string>): seq<Byte>
    requires fs != []
  {
    AllBytes(fs[..|fs| - 1]) + LastBytes(fs[|fs| - 1])
  }

  /**
   Groups of at most 16 bits with any number of leading zeros, separated by
   colons; the last field may be empty (so a lone final colon is accepted) or a
   dotted quad, and at most one other field is empty.
   */
  predicate WellFormed(fs: seq<string>)
    requires fs != []
  {
    && (forall i :: 0 <= i < |fs| - 1 ==> fs[i] == [] || IsGroup(fs[i]))
    && (forall i, j :: 0 <= i < j < |fs| - 1 ==> fs[i] != [] || fs[j] != [])
    && (fs[|fs| - 1] == [] || IsGroup(fs[|fs| - 1]) || IsQuad(fs[|fs| - 1]))
    && |Payload(fs)| <= 16
  }

  // ----- a field at a time

  /** What the fields still to be read add to what has been written. */
  function Rest6(s: Scanned, fs: seq<string>): (r: Option<Scanned>)
    requires s.Valid() && fs != []
    ensures r.Some? ==> r.value.Valid()
    decreases |fs|
  {
    var f := fs[0];
    if |fs| == 1 then
      if f == [] then Some(s)
      else if !IsGroup(f) && !IsQuad(f) then None
      else if |s.out + LastBytes(f)| <= 16 then Some(Scanned(s.out + LastBytes(f), s.colon))
      else None
    else if f == [] then
      if s.colon.Some? then None else Rest6(Scanned(s.out, Some(|s.out|)), fs[1..])
    else if IsGroup(f) && |s.out| <= 14 then Rest6(s.Put(HexOf(f)), fs[1..])
    else None
  }

  /** `fs` may follow what `s` has recorded. */
  predicate Follows(s: Scanned, fs: seq<string>)
    requires fs != []
  {
    && WellFormed(fs)
    && |s.out| + |Payload(fs)| <= 16
    && (s.colon.Some? ==> NoGap(fs))
  }

  lemma PayloadCons(fs: seq<string>)
    requires 2 <= |fs|
    ensures Payload(fs) == FieldBytes(fs[0]) + Payload(fs[1..])
  {
    var init, rest := fs[..|fs| - 1], fs[1..];
    assert init[0] == fs[0] && init[1..] == rest[..|rest| - 1];
    assert rest[|rest| - 1] == fs[|fs| - 1];
  }

  lemma WellFormedCons(fs: seq<string>)
    requires 2 <= |fs| && |Payload(fs)| <= 16
    ensures WellFormed(fs) <==>
              && (fs[0] == [] || IsGroup(fs[0]))
              && WellFormed(fs[1..])
              && (fs[0] == [] ==> NoGap(fs[1..]))
  {
    hide IsGroup, IsQuad, Payload;
    var rest := fs[1..];
    PayloadLength(fs);
    assert forall i :: 0 <= i < |rest| ==> rest[i] == fs[i + 1];
    if WellFormed(rest) && (fs[0] == [] || IsGroup(fs[0])) {
      assert forall i :: 1 <= i < |fs| - 1 ==> fs[i] == rest[i - 1];
    }
  }

  lemma PayloadLength(fs: seq<string>)
    requires 2 <= |fs|
    ensures |Payload(fs[1..])| <= |Payload(fs)|
  {
    PayloadCons(fs);
  }

  predicate NoGap(fs: seq<string>) { forall i :: 0 <= i < |fs| - 1 ==> fs[i] != [] }

  /** Two bytes were written for every field that precedes the `::`. */
  predicate Marked(s: Scanned, fs: seq<string>, colon: Option<nat>) {
    && (forall i :: 0 <= i < |fs| - 1 && fs[i] == [] ==> colon == Some(|s.out| + 2 * i))
    && (NoGap(fs) ==> colon == s.colon)
  }

  lemma NoGapCons(fs: seq<string>)
    requires 2 <= |fs|
    ensures NoGap(fs) <==> fs[0] != [] && NoGap(fs[1..])
  {
    assert forall i :: 1 <= i < |fs| ==> fs[i] == fs[1..][i - 1];
  }

  /** `r` is the outcome of reading `fs` after `s`, stated as a whole. */
  predicate Outcome6(s: Scanned, fs: seq<string>, r: Option<Scanned>)
    requires fs != []
  {
    && (r.Some? <==> Follows(s, fs))
    && (r.Some? ==> r.value.out == s.out + Payload(fs) && Marked(s, fs, r.value.colon))
  }

  lemma OutcomeLast(s: Scanned, fs: seq<string>)
    requires s.Valid() && |fs| == 1
    ensures Outcome6(s, fs, Rest6(s, fs))
  {
    var f := fs[0];
    assert LastBytes([]) == [];
    assert Payload(fs) == LastBytes(f);
    assert s.out + [] == s.out;
  }

  lemma MarkedGap(s: Scanned, fs: seq<string>)
    requires 2 <= |fs| && fs[0] == [] && NoGap(fs[1..])
    ensures Marked(s, fs, Some(|s.out|))
  {
    NoGapCons(fs);
    assert forall i :: 1 <= i < |fs| ==> fs[i] == fs[1..][i - 1];
  }

  lemma FollowsGap(s: Scanned, s': Scanned, fs: seq<string>)
    requires 2 <= |fs| && fs[0] == [] && s.colon.None? && s'.colon.Some? && s'.out == s.out
    ensures Follows(s', fs[1..]) <==> Follows(s, fs)
    ensures s'.out + Payload(fs[1..]) == s.out + Payload(fs)
  {
    assert FieldBytes([]) == [];
    hide IsGroup, IsQuad, Payload;
    PayloadCons(fs);
    assert [] + Payload(fs[1..]) == Payload(fs[1..]);
    if |Payload(fs)| <= 16 { WellFormedCons(fs); }
  }

  lemma OutcomeGap(s: Scanned, fs: seq<string>, r: Option<Scanned>)
    requires 2 <= |fs| && fs[0] == [] && s.colon.None?
    requires Outcome6(Scanned(s.out, Some(|s.out|)), fs[1..], r)
    ensures Outcome6(s, fs, r)
  {
    var s' := Scanned(s.out, Some(|s.out|));
    FollowsGap(s, s', fs);
    if r.Some? {
      assert NoGap(fs[1..]);
      MarkedGap(s, fs);
    }
    hide WellFormed, Payload;
  }

  lemma MarkedGroup(s: Scanned, s': Scanned, fs: seq<string>, colon: Option<nat>)
    requires 2 <= |fs| && fs[0] != [] && |s'.out| == |s.out| + 2 && s'.colon == s.colon
    requires Marked(s', fs[1..], colon)
    ensures Marked(s, fs, colon)
  {
    NoGapCons(fs);
    assert forall i :: 1 <= i < |fs| ==> fs[i] == fs[1..][i - 1];
  }

  lemma FollowsGroup(s: Scanned, s': Scanned, fs: seq<string>)
    requires 2 <= |fs| && IsGroup(fs[0]) && s'.out == s.out + FieldBytes(fs[0]) && s'.colon == s.colon
    ensures Follows(s', fs[1..]) <==> Follows(s, fs)
    ensures s'.out + Payload(fs[1..]) == s.out + Payload(fs)
  {
    hide IsQuad, Payload, FieldBytes, HexOf;
    PayloadCons(fs);
    NoGapCons(fs);
    if |Payload(fs)| <= 16 { WellFormedCons(fs); }
  }

  lemma OutcomeGroup(s: Scanned, fs: seq<string>, r: Option<Scanned>)
    requires 2 <= |fs| && IsGroup(fs[0])
    requires Outcome6(s.Put(HexOf(fs[0])), fs[1..], r)
    ensures Outcome6(s, fs, r)
  {
    var s' := s.Put(HexOf(fs[0]));
    FollowsGroup(s, s', fs);
    hide Follows, Payload, Marked;
    if r.Some? { MarkedGroup(s, s', fs, r.value.colon); }
  }

  lemma OutcomeNone(s: Scanned, fs: seq<string>)
    requires 2 <= |fs|
    requires if fs[0] == [] then s.colon.Some? else IsGroup(fs[0]) ==> 14 < |s.out|
    ensures Outcome6(s, fs, None)
  {
    PayloadCons(fs);
  }

  lemma {:induction false} Rest6Exactly(s: Scanned, fs: seq<string>)
    requires s.Valid() && fs != []
    ensures Outcome6(s, fs, Rest6(s, fs))
    decreases |fs|
  {
    hide Outcome6;
    if |fs| == 1 {
      OutcomeLast(s, fs);
    } else if fs[0] == [] && s.colon.None? {
      Rest6Exactly(Scanned(s.out, Some(|s.out|)), fs[1..]);
      OutcomeGap(s, fs, Rest6(s, fs));
    } else if IsGroup(fs[0]) && |s.out| <= 14 {
      Rest6Exactly(s.Put(HexOf(fs[0])), fs[1..]);
      OutcomeGroup(s, fs, Rest6(s, fs));
    } else {
      OutcomeNone(s, fs);
    }
  }

  // ----- the scan

  /** Any other character before the end makes `inet_pton4` refuse. */
  lemma {:induction false} Refused4(st: State4, i: nat)
    requires st.Valid() && i < |st.rest| && DecValue(st.rest[i]).None? && st.rest[i] != '.'
    requires forall k :: 0 <= k <= i ==> st.rest[k] != '\0'
    ensures Scan4(st) == None
    decreases |st.rest|
  {
    var step := Step4(st);
    if step.Go? && 0 < i {
      Refused4(step.state, i - 1);
    }
  }

  lemma NotQuad(t: string, i: nat)
    requires i < |t| && DecValue(t[i]).None? && t[i] != '.'
    requires forall k :: 0 <= k <= i ==> t[k] != '\0'
    ensures !IsQuad(t)
  {
    Pton4Exactly(t);
    Refused4(State4(t, [], 0, false), i);
  }

  lemma {:induction false} FieldsPrefix(p: string, rest: string, sep: char)
    requires forall i :: 0 <= i < |p| ==> p[i] != sep && p[i] != '\0'
    ensures Fields(p + rest, sep) == Extend(p, Fields(rest, sep))
  {
    if p == [] {
      assert p + rest == rest;
      ExtendShift("", sep, Fields(rest, sep));
    } else {
      var c, q := p[0], p[1..];
      assert (p + rest)[0] == c && (p + rest)[1..] == q + rest;
      FieldsPrefix(q, rest, sep);
      var f := Fields(rest, sep)[0];
      assert [c] + (q + f) == p + f by { assert p == [c] + q; }
    }
  }

  /** In a text with no colon, the quad is read up to the end. */
  lemma {:induction false} FieldsAlone(rest: string)
    requires |Fields(rest, ':')| == 1
    ensures Fields(Fields(rest, ':')[0], '.') == Fields(rest, '.')
  {
    if !AtEnd(rest) {
      var c, f := rest[0], Fields(rest[1..], ':')[0];
      FieldsAlone(rest[1..]);
      assert Fields(rest, ':')[0] == [c] + f;
      assert ([c] + f)[1..] == f;
    }
  }

  lemma {:induction false} ColonRefused(st: State4)
    requires st.Valid() && 1 < |Fields(st.rest, ':')|
    ensures Scan4(st) == None
    decreases |st.rest|
  {
    var step := Step4(st);
    if step.Go? {
      ColonRefused(step.state);
    }
  }

  lemma ReadAsHexSnoc(v: nat, d: nat)
    requires d < 10
    ensures ReadAsHex(10 * v + d) == 16 * ReadAsHex(v) + d
  {
  }

  lemma SameDigit(c: char)
    requires DecValue(c).Some?
    ensures HexValue(c) == DecValue(c) && DecValue(c).value < 10
  {
  }

  /** A decimal numeral up to 255 does not overflow a group when read as one. */
  lemma {:induction false} DecimalAsHex(t: string)
    requires IsDecimal(t)
    ensures IsHex(t) && HexOf(t) == ReadAsHex(DecimalOf(t))
  {
    assert ReadAsHex(0) == 0;
    hide ReadAsHex, DecValue, HexValue;
    if t != [] {
      var init, c := t[..|t| - 1], t[|t| - 1];
      DecimalAsHex(init);
      SameDigit(c);
      ReadAsHexSnoc(DecimalOf(init), DecValue(c).value);
      assert t == init + [c];
      HexSnoc(init, c);
    }
  }

  lemma OctetAsHex(t: string)
    requires IsOctet(t)
    ensures IsHex(t) && HexOf(t) <= 0xffff
  {
    DecimalAsHex(t);
    ReadAsHexBound(DecimalOf(t));
  }

  lemma HexChars(p: string)
    requires IsHex(p)
    ensures forall i :: 0 <= i < |p| ==> p[i] != ':' && p[i] != '.' && p[i] != '\0'
  {
  }

  lemma OverflowNotQuad(p: string, t: string)
    requires IsHex(p) && 0xffff < HexOf(p)
    ensures !IsQuad(p + t) && !IsGroup(p + t)
  {
    HexChars(p);
    FieldsPrefix(p, t, '.');
    var f := Fields(t, '.')[0];
    assert Fields(p + t, '.')[0] == p + f;
    if IsOctet(p + f) {
      OctetAsHex(p + f);
      HexPrefix(p, f);
    }
    if IsHex(p + t) { HexPrefix(p, t); }
  }

  /** A dot in the open field: what follows must be the last field, and a quad. */
  lemma QuadField(rest: string, p: string)
    requires IsHex(p) && !AtEnd(rest) && rest[0] == '.'
    ensures var gs := Extend(p, Fields(rest, ':'));
            && !IsGroup(gs[0]) && gs[0] != []
            && Pton4(p + rest) == if |gs| == 1 && IsQuad(gs[0]) then Some(QuadOf(gs[0])) else None
  {
    var tok, gs := p + rest, Extend(p, Fields(rest, ':'));
    HexChars(p);
    FieldsPrefix(p, rest, ':');
    assert gs[0][|p|] == '.';
    if |gs| == 1 {
      FieldsAlone(tok);
      Pton4Exactly(tok);
    } else {
      ColonRefused(State4(tok, [], 0, false));
    }
  }

  lemma ScanDot(rest: string, p: string, s: Scanned)
    requires s.Valid() && IsHex(p) && HexOf(p) <= 0xffff && !AtEnd(rest) && rest[0] == '.'
    ensures Scan6(State6(rest, p + rest, HexOf(p), p != [], s)) == Rest6(s, Extend(p, Fields(rest, ':')))
  {
    hide IsGroup, IsQuad, Pton4, HexOf;
    QuadField(rest, p);
  }

  lemma ScanColon(rest: string, p: string, s: Scanned)
    requires s.Valid() && IsHex(p) && HexOf(p) <= 0xffff && !AtEnd(rest) && rest[0] == ':'
    requires forall s': Scanned :: s'.Valid() ==>
      Scan6(State6(rest[1..], rest[1..], 0, false, s')) == Rest6(s', Fields(rest[1..], ':'))
    ensures Scan6(State6(rest, p + rest, HexOf(p), p != [], s)) == Rest6(s, Extend(p, Fields(rest, ':')))
  {
    var fs := Fields(rest[1..], ':');
    ExtendShift(p, ':', fs);
    assert ([p] + fs)[1..] == fs;
  }

  lemma ScanDigit(rest: string, p: string, s: Scanned)
    requires s.Valid() && IsHex(p) && HexOf(p) <= 0xffff && !AtEnd(rest) && HexValue(rest[0]).Some?
    ensures var q := p + [rest[0]];
            && IsHex(q)
            && Scan6(State6(rest, p + rest, HexOf(p), p != [], s)) ==
                 (if HexOf(q) <= 0xffff then Scan6(State6(rest[1..], q + rest[1..], HexOf(q), true, s)) else None)
  {
    HexSnoc(p, rest[0]);
    assert (p + [rest[0]]) + rest[1..] == p + rest;
  }

  lemma Overflowed(p: string, fs: seq<string>, s: Scanned)
    requires s.Valid() && fs != [] && IsHex(p) && 0xffff < HexOf(p)
    ensures Rest6(s, Extend(p, fs)) == None
  {
    OverflowNotQuad(p, fs[0]);
    hide HexOf;
    assert p != [];
  }

  lemma ScanEnd(rest: string, p: string, s: Scanned)
    requires s.Valid() && IsHex(p) && HexOf(p) <= 0xffff && AtEnd(rest)
    ensures Scan6(State6(rest, p + rest, HexOf(p), p != [], s)) == Rest6(s, Extend(p, Fields(rest, ':')))
  {
    assert Extend(p, Fields(rest, ':')) == [p] by { assert p + "" == p; }
    HexNotQuad(p);
  }

  lemma ScanOther(rest: string, p: string, s: Scanned)
    requires s.Valid() && IsHex(p) && HexOf(p) <= 0xffff && !AtEnd(rest)
    requires HexValue(rest[0]).None? && rest[0] != ':' && rest[0] != '.'
    ensures Scan6(State6(rest, p + rest, HexOf(p), p != [], s)) == Rest6(s, Extend(p, Fields(rest, ':')))
  {
    var f := Extend(p, Fields(rest, ':'))[0];
    HexChars(p);
    assert f[|p|] == rest[0] && forall k :: 0 <= k < |p| ==> f[k] == p[k];
    NotQuad(f, |p|);
    hide HexOf, IsQuad;
  }

  /** The scan in the middle of a field of which `p` has been read. */
  lemma {:induction false} ScanFields6(rest: string, p: string, s: Scanned)
    requires s.Valid() && IsHex(p) && HexOf(p) <= 0xffff
    ensures Scan6(State6(rest, p + rest, HexOf(p), p != [], s)) == Rest6(s, Extend(p, Fields(rest, ':')))
    decreases |rest|
  {
    hide Step6, Rest6;
    if AtEnd(rest) {
      ScanEnd(rest, p, s);
    } else {
      var c, tail := rest[0], rest[1..];
      var fs := Fields(tail, ':');
      if HexValue(c).Some? {
        ScanDigit(rest, p, s);
        ExtendShift(p, c, fs);
        if HexOf(p + [c]) <= 0xffff {
          ScanFields6(tail, p + [c], s);
        } else {
          Overflowed(p + [c], fs, s);
        }
      } else if c == ':' {
        forall s': Scanned | s'.Valid()
          ensures Scan6(State6(tail, tail, 0, false, s')) == Rest6(s', fs)
        {
          ScanFields6(tail, "", s');
          ExtendShift("", c, fs);
          assert "" + tail == tail;
        }
        ScanColon(rest, p, s);
      } else if c == '.' {
        ScanDot(rest, p, s);
      } else {
        ScanOther(rest, p, s);
      }
    }
  }

  lemma HexNotQuad(p: string)
    requires IsHex(p)
    ensures !IsQuad(p)
  {
    HexChars(p);
    FieldsPrefix(p, "", '.');
    assert p + "" == p;
  }

  // ----- whole texts

  /** What is scanned: the first of two leading colons is skipped. */
  function Body(src: string): string {
    if CharAt(src, 0) == ':' then src[1..] else src
  }

  /** A leading colon must be doubled, and the fields must be well formed. */
  predicate Accepted(src: string) {
    && (CharAt(src, 0) == ':' ==> CharAt(src, 1) == ':')
    && WellFormed(Fields(Body(src), ':'))
    && (NoGap(Fields(Body(src), ':')) ==> |Payload(Fields(Body(src), ':'))| == 16)
  }

  /** The scan of a whole text, in terms of its fields. */
  lemma ScanExactly(text: string)
    ensures Outcome6(Scanned([], None), Fields(text, ':'), ScanText(text))
  {
    var s, fs := Scanned([], None), Fields(text, ':');
    ScanFields6(text, "", s);
    ExtendShift("", ':', fs);
    assert "" + text == text;
    Rest6Exactly(s, fs);
  }

  lemma FinishExactly(fs: seq<string>, r: Scanned)
    requires fs != [] && r.Valid() && Outcome6(Scanned([], None), fs, Some(r))
    ensures r.out == Payload(fs) && WellFormed(fs)
    ensures Finish(r).Some? <==> (NoGap(fs) ==> |Payload(fs)| == 16)
    ensures NoGap(fs) && |Payload(fs)| == 16 ==> Finish(r).value == Payload(fs)
    ensures forall i :: 0 <= i < |fs| - 1 && fs[i] == [] ==>
              2 * i <= |Payload(fs)| && Finish(r).value == Expand(Payload(fs), 2 * i)
  {
    hide WellFormed, Payload, Expand;
    assert [] + Payload(fs) == Payload(fs);
  }

  /**
   `inet_pton6` accepts exactly the texts described by `Accepted`; with no `::`
   it returns the bytes written, and otherwise those bytes expanded at the `::`.
   */
  lemma Pton6Exactly(src: string)
    ensures Pton6(src).Some? <==> Accepted(src)
    ensures var fs := Fields(Body(src), ':');
            Accepted(src) && NoGap(fs) ==> Pton6(src).value == Payload(fs)
    ensures var fs := Fields(Body(src), ':');
            forall i :: Accepted(src) && 0 <= i < |fs| - 1 && fs[i] == [] ==>
              2 * i <= |Payload(fs)| && Pton6(src).value == Expand(Payload(fs), 2 * i)
  {
    var text := Body(src);
    var fs := Fields(text, ':');
    assert src[0..] == src;
    ScanExactly(text);
    var r := ScanText(text);
    assert r.None? ==> !WellFormed(fs);
    hide WellFormed, Payload, Expand, Finish, Outcome6, Fields, NoGap, ScanText;
    if r.Some? { FinishExactly(fs, r.value); }
  }

  /** A lone colon after the last group of a full address is not refused. */
  lemma FinalColon(ws: seq<Word>)
    requires |ws| == 8
    ensures Pton6(Groups(ws) + ":") == Some(BytesOf(ws))
  {
    var text, s := Groups(ws) + ":", Scanned([], None);
    GroupsStart(ws);
    assert text == Groups(ws) + ":" + "" && text[0..] == text;
    ScanGroupsColon(text, ws, "", text, s);
    assert After(s, ws).out == BytesOf(ws);
  }
}

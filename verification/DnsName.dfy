/**
 Domain names on the wire: `EncodeDotStr` and `DecodeDotStr`, with message
 compression (sections 3.1 and 4.1.4 of RFC 1035).
 */
module DnsName {
  import opened Common

  type Label = seq<Byte>

  const DOT: Byte := 46

  // ----- names as text

  /** Every label followed by a dot. */
  function Dotted(ls: seq<Label>): seq<Byte> {
    if ls == [] then [] else ls[0] + [DOT] + Dotted(ls[1..])
  }

  /** The labels separated by dots. */
  function Join(ls: seq<Label>): seq<Byte> {
    if ls == [] then [] else if |ls| == 1 then ls[0] else ls[0] + [DOT] + Join(ls[1..])
  }

  lemma {:induction false} DottedJoin(ls: seq<Label>)
    requires ls != []
    ensures Dotted(ls) == Join(ls) + [DOT]
  {
    if |ls| > 1 {
      DottedJoin(ls[1..]);
    }
  }

  lemma {:induction false} DottedSnoc(ls: seq<Label>, l: Label)
    ensures Dotted(ls + [l]) == Dotted(ls) + (l + [DOT])
  {
    if ls == [] {
      assert ls + [l] == [l];
    } else {
      assert (ls + [l])[1..] == ls[1..] + [l];
      DottedSnoc(ls[1..], l);
    }
  }

  lemma {:induction false} DottedConcat(xs: seq<Label>, ys: seq<Label>)
    ensures Dotted(xs + ys) == Dotted(xs) + Dotted(ys)
  {
    if xs == [] {
      assert xs + ys == ys;
    } else {
      assert (xs + ys)[1..] == xs[1..] + ys;
      DottedConcat(xs[1..], ys);
    }
  }

  // ----- names in a packet

  function JumpAt(pkt: seq<Byte>, pos: nat): nat
    requires pos + 1 < |pkt|
  {
    var hi: int := pkt[pos];
    (hi * 256 + pkt[pos + 1]) % 0x4000
  }

  /**
   The bytes at `pos` spell the labels `ls`. Any of the two top bits makes a
   byte the start of a pointer, which must lead to an earlier position;
   pointers are refused when the packet's start is not known.
   */
  ghost predicate Spells(pkt: seq<Byte>, pointers: bool, pos: nat, ls: seq<Label>)
    decreases |ls|, pos
  {
    && pos < |pkt|
    && if pkt[pos] == 0 then ls == []
       else if pkt[pos] < 64 then
         && ls != [] && pos + 1 + pkt[pos] <= |pkt|
         && ls[0] == pkt[pos + 1..pos + 1 + pkt[pos]]
         && Spells(pkt, pointers, pos + 1 + pkt[pos], ls[1..])
       else pointers && pos + 1 < |pkt| && JumpAt(pkt, pos) < pos && Spells(pkt, pointers, JumpAt(pkt, pos), ls)
  }

  /**
   Up to `size` bytes of text, every byte that decoding looks at is in the
   packet and every pointer leads backwards.
   */
  ghost predicate WellFormed(pkt: seq<Byte>, pointers: bool, pos: nat, size: nat)
    decreases size, pos
  {
    && pos < |pkt|
    && if pkt[pos] == 0 then true
       else if pkt[pos] < 64 then
         pkt[pos] + 1 <= size ==>
           pos + 1 + pkt[pos] < |pkt| && WellFormed(pkt, pointers, pos + 1 + pkt[pos], size - pkt[pos] - 1)
       else pointers ==>
         pos + 1 < |pkt| && JumpAt(pkt, pos) < pos && WellFormed(pkt, pointers, JumpAt(pkt, pos), size)
  }

  /** The name at `pos` starts with a label, perhaps through pointers. */
  ghost predicate HasLabel(pkt: seq<Byte>, pointers: bool, pos: nat)
    decreases pos
  {
    pos < |pkt| && pkt[pos] != 0 &&
    (pkt[pos] >= 64 && pointers && pos + 1 < |pkt| && JumpAt(pkt, pos) < pos ==>
       HasLabel(pkt, pointers, JumpAt(pkt, pos)))
  }

  /** The bytes that a name takes up where it stands. */
  function InPlace(pkt: seq<Byte>, pos: nat): nat
    decreases |pkt| - pos
  {
    if pos >= |pkt| then 0
    else if pkt[pos] == 0 then 1
    else if pkt[pos] < 64 then pkt[pos] + 1 + InPlace(pkt, pos + 1 + pkt[pos])
    else 2
  }

  /** A position spells at most one list of labels. */
  lemma {:induction false} SpellsUnique(pkt: seq<Byte>, pointers: bool, pos: nat, xs: seq<Label>, ys: seq<Label>)
    requires Spells(pkt, pointers, pos, xs) && Spells(pkt, pointers, pos, ys)
    ensures xs == ys
    decreases |xs|, pos
  {
    if pkt[pos] == 0 {
    } else if pkt[pos] < 64 {
      SpellsUnique(pkt, pointers, pos + 1 + pkt[pos], xs[1..], ys[1..]);
      assert xs == [xs[0]] + xs[1..] && ys == [ys[0]] + ys[1..];
    } else {
      SpellsUnique(pkt, pointers, JumpAt(pkt, pos), xs, ys);
    }
  }

  /** Whatever `pos` spells starts with `pre` and goes on as what `p` spells. */
  ghost predicate Leads(pkt: seq<Byte>, pointers: bool, pos: nat, pre: seq<Label>, p: nat) {
    forall ls :: Spells(pkt, pointers, pos, ls) <==> Continues(pkt, pointers, pre, p, ls)
  }

  /** `ls` is `pre` and then what `p` spells. */
  ghost predicate Continues(pkt: seq<Byte>, pointers: bool, pre: seq<Label>, p: nat, ls: seq<Label>) {
    |pre| <= |ls| && ls[..|pre|] == pre && Spells(pkt, pointers, p, ls[|pre|..])
  }

  lemma LeadsStep(pkt: seq<Byte>, pointers: bool, pos: nat, pre: seq<Label>, p: nat, len: nat, l: Label)
    requires Leads(pkt, pointers, pos, pre, p) && p < |pkt|
    requires 0 < pkt[p] < 64 && len == pkt[p] && p + 1 + len <= |pkt| && l == pkt[p + 1..p + 1 + len]
    ensures Leads(pkt, pointers, pos, pre + [l], p + 1 + len)
  {
    hide Spells, Continues;
    forall ls
      ensures Continues(pkt, pointers, pre, p, ls) <==> Continues(pkt, pointers, pre + [l], p + 1 + len, ls)
    {
      ContinuesStep(pkt, pointers, pre, p, len, l, ls);
    }
  }

  lemma ContinuesStep(pkt: seq<Byte>, pointers: bool, pre: seq<Label>, p: nat, len: nat, l: Label, ls: seq<Label>)
    requires p < |pkt| && 0 < pkt[p] < 64 && len == pkt[p] && p + 1 + len <= |pkt| && l == pkt[p + 1..p + 1 + len]
    ensures Continues(pkt, pointers, pre, p, ls) <==> Continues(pkt, pointers, pre + [l], p + 1 + len, ls)
  {
    hide Spells;
    var n := |pre|;
    if n < |ls| {
      SpellsLabel(pkt, pointers, p, len, l, ls[n..]);
      SplitAt(ls, pre, l);
    } else if n == |ls| {
      assert ls[n..] == [];
      SpellsNothing(pkt, pointers, p);
    }
  }

  lemma SplitAt(ls: seq<Label>, pre: seq<Label>, l: Label)
    requires |pre| < |ls|
    ensures ls[|pre|..][0] == ls[|pre|] && ls[|pre|..][1..] == ls[|pre| + 1..]
    ensures ls[..|pre| + 1] == pre + [l] <==> ls[..|pre|] == pre && ls[|pre|] == l
  {
    assert ls[..|pre| + 1] == ls[..|pre|] + [ls[|pre|]];
    if ls[..|pre| + 1] == pre + [l] {
      assert ls[..|pre|] == (pre + [l])[..|pre|];
      assert (pre + [l])[|pre|] == l;
    }
  }

  lemma SpellsNothing(pkt: seq<Byte>, pointers: bool, p: nat)
    requires p < |pkt| && 0 < pkt[p] < 64
    ensures !Spells(pkt, pointers, p, [])
  {
  }

  lemma SpellsLabel(pkt: seq<Byte>, pointers: bool, p: nat, len: nat, l: Label, ls: seq<Label>)
    requires ls != [] && p < |pkt| && 0 < pkt[p] < 64 && len == pkt[p]
    requires p + 1 + len <= |pkt| && l == pkt[p + 1..p + 1 + len]
    ensures Spells(pkt, pointers, p, ls) <==> ls[0] == l && Spells(pkt, pointers, p + 1 + len, ls[1..])
  {
  }

  // ----- decoding

  /** The end of a decoded name: its last dot becomes the NUL. */
  ghost function Terminated(text: seq<Byte>): seq<Byte>
    requires text != []
  {
    text[..|text| - 1] + [0]
  }

  /** The buffer once `text` has been written at `off`. */
  ghost function Layout(before: seq<Byte>, off: nat, text: seq<Byte>): (a: seq<Byte>)
    requires off + |text| <= |before|
    ensures |a| == |before|
  {
    before[..off] + text + before[off + |text|..]
  }

  /** The buffer once the name has been terminated too. */
  ghost function Finished(before: seq<Byte>, off: nat, text: seq<Byte>): seq<Byte>
    requires 0 < off + |text| <= |before|
  {
    Terminated(before[..off] + text) + before[off + |text|..]
  }

  lemma LayoutEnd(before: seq<Byte>, off: nat, text: seq<Byte>)
    requires 0 < off + |text| <= |before|
    ensures Layout(before, off, text)[off + |text| - 1 := 0] == Finished(before, off, text)
  {
  }

  lemma LayoutSplit(before: seq<Byte>, off: nat, x: seq<Byte>, n: nat)
    requires off + |x| + n <= |before|
    ensures Layout(before, off, x)[..off + |x|] == before[..off] + x
    ensures Layout(before, off, x)[off + |x| + n..] == before[off + |x| + n..]
  {
  }

  lemma LayoutNested(before: seq<Byte>, off: nat, x: seq<Byte>, y: seq<Byte>)
    requires off + |x| + |y| <= |before|
    ensures Layout(Layout(before, off, x), off + |x|, y) == Layout(before, off, x + y)
  {
    LayoutSplit(before, off, x, |y|);
  }

  lemma FinishedNested(before: seq<Byte>, off: nat, x: seq<Byte>, y: seq<Byte>)
    requires 0 < off + |x| + |y| <= |before|
    ensures Finished(Layout(before, off, x), off + |x|, y) == Finished(before, off, x + y)
  {
    LayoutSplit(before, off, x, |y|);
    hide Layout, Terminated;
    assert before[..off] + x + y == before[..off] + (x + y);
  }

  lemma LeadsStart(pkt: seq<Byte>, pointers: bool, pos: nat)
    ensures Leads(pkt, pointers, pos, [], pos)
  {
    assert forall ls: seq<Label> :: ls[..0] == [] && ls[0..] == ls;
  }

  lemma LeadsEnd(pkt: seq<Byte>, pointers: bool, pos: nat, ls: seq<Label>, p: nat)
    requires Leads(pkt, pointers, pos, ls, p) && p < |pkt| && pkt[p] == 0
    ensures Spells(pkt, pointers, pos, ls)
  {
    assert ls[..|ls|] == ls && ls[|ls|..] == [];
  }

  /** Copies plain labels up to the root, a pointer, or a label that does not fit. */
  method CopyLabels(pkt: seq<Byte>, pointers: bool, pos: nat, dot: array<Byte>, off: nat, size: nat)
    returns (fits: bool, p: nat, ghost ls: seq<Label>, plain: nat)
    requires off + size <= dot.Length && WellFormed(pkt, pointers, pos, size)
    modifies dot
    ensures p < |pkt| && plain == |Dotted(ls)| <= size && (plain == 0 ==> p == pos)
    ensures Leads(pkt, pointers, pos, ls, p) && WellFormed(pkt, pointers, p, size - plain)
    ensures plain + InPlace(pkt, p) == InPlace(pkt, pos)
    ensures dot[..] == Layout(old(dot[..]), off, Dotted(ls))
    ensures if fits then pkt[p] == 0 || 64 <= pkt[p] else 0 < pkt[p] < 64 && plain + pkt[p] + 1 > size
  {
    hide Dotted, Leads, Spells, Layout, WellFormed, InPlace, JumpAt;
    p, plain, ls := pos, 0, [];
    InPacket(pkt, pointers, pos, size);
    LeadsStart(pkt, pointers, pos);
    LayoutStart(dot[..], off);
    while pkt[p] != 0 && pkt[p] < 64
      invariant p < |pkt| && plain <= size && (plain == 0 ==> p == pos)
      invariant plain == |Dotted(ls)| && Leads(pkt, pointers, pos, ls, p)
      invariant WellFormed(pkt, pointers, p, size - plain)
      invariant plain + InPlace(pkt, p) == InPlace(pkt, pos)
      invariant dot[..] == Layout(old(dot[..]), off, Dotted(ls))
      decreases |pkt| - p
    {
      var len: int := pkt[p];
      if plain + len + 1 > size {
        return false, p, ls, plain;
      }
      AtLabel(pkt, pointers, p, size - plain);
      var l := pkt[p + 1..p + 1 + len];
      LeadsStep(pkt, pointers, pos, ls, p, len, l);
      DottedSnoc(ls, l);
      LayoutNested(old(dot[..]), off, Dotted(ls), l + [DOT]);
      Put(dot, off + plain, l + [DOT]);
      ls := ls + [l];
      p := p + len + 1;
      plain := plain + len + 1;
    }
    fits := true;
  }

  /**
   `dot[off..off + size]` is the caller's buffer. Decoding succeeds exactly
   when the bytes spell labels that fit; it then writes them, dotted, and puts
   the NUL over the last dot. That dot is the caller's if the name at `pos` is
   the root, so at least one label must precede or follow. The number of bytes
   is kept in 16 bits, which a name of 65534 bytes or more overflows.
   */
  method DecodeDotStr(pkt: seq<Byte>, pointers: bool, pos: nat, dot: array<Byte>, off: nat, size: Word)
    returns (ok: bool, encodedLen: Word, ghost ls: seq<Label>)
    requires off + size <= dot.Length
    requires WellFormed(pkt, pointers, pos, size)
    requires 0 < off || HasLabel(pkt, pointers, pos)
    modifies dot
    ensures ok ==> Spells(pkt, pointers, pos, ls) && |Dotted(ls)| <= size && 0 < off + |Dotted(ls)|
    ensures ok ==> encodedLen == InPlace(pkt, pos) % 0x1_0000
    ensures ok ==> dot[..] == Finished(old(dot[..]), off, Dotted(ls))
    ensures !ok ==> forall ls :: Spells(pkt, pointers, pos, ls) ==> |Dotted(ls)| > size
    ensures !ok ==> dot[..off] == old(dot[..off]) && dot[off + size..] == old(dot[off + size..])
    decreases size, pos
  {
    hide Dotted, Leads, Spells, Layout, Finished, WellFormed, InPlace, HasLabel, JumpAt;
    ghost var before := dot[..];
    var p, plain;
    ok, p, ls, plain := CopyLabels(pkt, pointers, pos, dot, off, size);
    LayoutFrame(before, off, Dotted(ls), size);
    if !ok {
      TooLong(pkt, pointers, pos, ls, p, size);
      return false, 0, ls;
    }
    if pkt[p] == 0 {
      AtRoot(pkt, pointers, p);
      LeadsEnd(pkt, pointers, pos, ls, p);
      LayoutEnd(before, off, Dotted(ls));
      dot[off + plain - 1] := 0;
      return true, (plain + 1) % 0x1_0000, ls;
    }
    if !pointers {
      NoPointer(pkt, pos, ls, p);
      return false, 0, ls;
    }
    AtPointer(pkt, p, size - plain);
    var jumpedLen;
    ghost var tail;
    ok, jumpedLen, tail := DecodeDotStr(pkt, pointers, JumpAt(pkt, p), dot, off + plain, size - plain);
    if !ok {
      JumpTooLong(pkt, pos, ls, p, size);
      FrameNested(dot[..], Layout(before, off, Dotted(ls)), before, off, plain, size);
      return false, 0, ls;
    }
    Jumped(pkt, pos, ls, p, tail);
    FinishedNested(before, off, Dotted(ls), Dotted(tail));
    return true, (plain + 2) % 0x1_0000, ls + tail;
  }

  lemma InPacket(pkt: seq<Byte>, pointers: bool, pos: nat, size: nat)
    requires WellFormed(pkt, pointers, pos, size)
    ensures pos < |pkt|
  {
  }

  lemma AtLabel(pkt: seq<Byte>, pointers: bool, p: nat, size: nat)
    requires WellFormed(pkt, pointers, p, size) && p < |pkt| && 0 < pkt[p] < 64 && pkt[p] + 1 <= size
    ensures p + 1 + pkt[p] < |pkt| && WellFormed(pkt, pointers, p + 1 + pkt[p], size - pkt[p] - 1)
    ensures InPlace(pkt, p) == pkt[p] + 1 + InPlace(pkt, p + 1 + pkt[p])
  {
  }

  lemma AtPointer(pkt: seq<Byte>, p: nat, size: nat)
    requires WellFormed(pkt, true, p, size) && p < |pkt| && 64 <= pkt[p]
    ensures p + 1 < |pkt| && JumpAt(pkt, p) < p && WellFormed(pkt, true, JumpAt(pkt, p), size)
    ensures HasLabel(pkt, true, p) ==> HasLabel(pkt, true, JumpAt(pkt, p))
    ensures InPlace(pkt, p) == 2
  {
  }

  lemma AtRoot(pkt: seq<Byte>, pointers: bool, p: nat)
    requires p < |pkt| && pkt[p] == 0
    ensures InPlace(pkt, p) == 1 && !HasLabel(pkt, pointers, p)
  {
  }

  lemma LayoutStart(before: seq<Byte>, off: nat)
    requires off <= |before|
    ensures Dotted([]) == [] && Layout(before, off, []) == before
  {
  }

  lemma LayoutFrame(before: seq<Byte>, off: nat, text: seq<Byte>, size: nat)
    requires |text| <= size && off + size <= |before|
    ensures Layout(before, off, text)[..off] == before[..off]
    ensures Layout(before, off, text)[off + size..] == before[off + size..]
  {
  }

  lemma FrameNested(a: seq<Byte>, mid: seq<Byte>, before: seq<Byte>, off: nat, plain: nat, size: nat)
    requires |a| == |mid| == |before| && plain <= size && off + size <= |a|
    requires a[..off + plain] == mid[..off + plain] && a[off + size..] == mid[off + size..]
    requires mid[..off] == before[..off] && mid[off + size..] == before[off + size..]
    ensures a[..off] == before[..off] && a[off + size..] == before[off + size..]
  {
    assert a[..off] == a[..off + plain][..off] && mid[..off] == mid[..off + plain][..off];
  }

  lemma TooLong(pkt: seq<Byte>, pointers: bool, pos: nat, pre: seq<Label>, p: nat, size: nat)
    requires Leads(pkt, pointers, pos, pre, p) && p < |pkt| && 0 < pkt[p] < 64
    requires |Dotted(pre)| + pkt[p] + 1 > size
    ensures forall ls :: Spells(pkt, pointers, pos, ls) ==> |Dotted(ls)| > size
  {
    forall ls | Spells(pkt, pointers, pos, ls) ensures |Dotted(ls)| > size {
      assert ls == pre + ls[|pre|..];
      DottedConcat(pre, ls[|pre|..]);
    }
  }

  lemma NoPointer(pkt: seq<Byte>, pos: nat, pre: seq<Label>, p: nat)
    requires Leads(pkt, false, pos, pre, p) && p < |pkt| && 64 <= pkt[p]
    ensures forall ls :: !Spells(pkt, false, pos, ls)
  {
  }

  lemma Jumped(pkt: seq<Byte>, pos: nat, pre: seq<Label>, p: nat, tail: seq<Label>)
    requires Leads(pkt, true, pos, pre, p) && p + 1 < |pkt| && 64 <= pkt[p] && JumpAt(pkt, p) < p
    requires Spells(pkt, true, JumpAt(pkt, p), tail)
    ensures Spells(pkt, true, pos, pre + tail) && Dotted(pre + tail) == Dotted(pre) + Dotted(tail)
  {
    assert (pre + tail)[..|pre|] == pre && (pre + tail)[|pre|..] == tail;
    assert Spells(pkt, true, p, tail);
    DottedConcat(pre, tail);
  }

  lemma JumpTooLong(pkt: seq<Byte>, pos: nat, pre: seq<Label>, p: nat, size: nat)
    requires Leads(pkt, true, pos, pre, p) && p + 1 < |pkt| && 64 <= pkt[p] && JumpAt(pkt, p) < p
    requires |Dotted(pre)| <= size
    requires forall tail :: Spells(pkt, true, JumpAt(pkt, p), tail) ==> |Dotted(tail)| > size - |Dotted(pre)|
    ensures forall ls :: Spells(pkt, true, pos, ls) ==> |Dotted(ls)| > size
  {
    forall ls | Spells(pkt, true, pos, ls) ensures |Dotted(ls)| > size {
      var tail := ls[|pre|..];
      assert ls == pre + tail;
      assert Spells(pkt, true, p, tail);
      DottedConcat(pre, tail);
    }
  }

  /** `memcpy` of `bytes` to position `at`. */
  method Put(a: array<Byte>, at: nat, bytes: seq<Byte>)
    requires at + |bytes| <= a.Length
    modifies a
    ensures a[..] == Layout(old(a[..]), at, bytes)
  {
    forall k | 0 <= k < |bytes| {
      a[at + k] := bytes[k];
    }
  }

  /** A pointer loop is well-formed at every size and spells no name at all. */
  lemma {:induction false} PointerLoop(size: nat, ls: seq<Label>)
    ensures var pkt := [1, 97, 0xc0, 0];
            WellFormed(pkt, true, 0, size) && !Spells(pkt, true, 0, ls)
  {
    var pkt := [1, 97, 0xc0, 0];
    assert JumpAt(pkt, 2) == 0;
    if size >= 2 {
      PointerLoop(size - 2, []);
      assert WellFormed(pkt, true, 2, size - 2);
    }
    if ls != [] {
      PointerLoop(0, ls[1..]);
      assert !Spells(pkt, true, 2, ls[1..]);
    }
  }

  // ----- encoding

  /** Length of the text before the first dot. */
  function TokenLen(s: seq<Byte>): (n: nat)
    ensures n <= |s| && DOT !in s[..n] && (n < |s| ==> s[n] == DOT)
  {
    if s == [] || s[0] == DOT then 0 else 1 + TokenLen(s[1..])
  }

  function SkipDots(s: seq<Byte>): (r: seq<Byte>)
    ensures |r| <= |s| && (r != [] ==> r[0] != DOT)
  {
    if s != [] && s[0] == DOT then SkipDots(s[1..]) else s
  }

  /** The tokens that `strtok` finds: the nonempty pieces between dots. */
  function Tokens(s: seq<Byte>): seq<Label>
    decreases |s|
  {
    var r := SkipDots(s);
    if r == [] then [] else [r[..TokenLen(r)]] + Tokens(r[TokenLen(r)..])
  }

  function WithoutDots(s: seq<Byte>): seq<Byte> {
    if s == [] then [] else (if s[0] == DOT then [] else [s[0]]) + WithoutDots(s[1..])
  }

  function Flat(ls: seq<Label>): seq<Byte> {
    if ls == [] then [] else ls[0] + Flat(ls[1..])
  }

  lemma {:induction false} WithoutDotsConcat(a: seq<Byte>, b: seq<Byte>)
    ensures WithoutDots(a + b) == WithoutDots(a) + WithoutDots(b)
  {
    if a == [] {
      assert a + b == b;
    } else {
      assert (a + b)[1..] == a[1..] + b;
      WithoutDotsConcat(a[1..], b);
    }
  }

  lemma {:induction false} WithoutDotsSame(a: seq<Byte>)
    requires DOT !in a
    ensures WithoutDots(a) == a
  {
    if a != [] {
      WithoutDotsSame(a[1..]);
      assert a == [a[0]] + a[1..];
    }
  }

  lemma {:induction false} WithoutDotsSkip(s: seq<Byte>)
    ensures WithoutDots(SkipDots(s)) == WithoutDots(s)
  {
    if s != [] && s[0] == DOT {
      WithoutDotsSkip(s[1..]);
    }
  }

  /** The tokens are nonempty, free of dots, and together the text without its dots. */
  lemma {:induction false} TokensExactly(s: seq<Byte>)
    ensures forall l :: l in Tokens(s) ==> l != [] && DOT !in l
    ensures Flat(Tokens(s)) == WithoutDots(s)
    decreases |s|
  {
    var r := SkipDots(s);
    WithoutDotsSkip(s);
    if r != [] {
      var n := TokenLen(r);
      assert r == r[..n] + r[n..];
      TokensExactly(r[n..]);
      WithoutDotsConcat(r[..n], r[n..]);
      WithoutDotsSame(r[..n]);
      hide SkipDots, TokenLen, WithoutDots;
    }
  }

  /** Each label after its length, which is kept in one byte. */
  function Wire(ls: seq<Label>): seq<Byte> {
    if ls == [] then [] else [|ls[0]| % 256] + ls[0] + Wire(ls[1..])
  }

  lemma {:induction false} WireSnoc(ls: seq<Label>, l: Label)
    ensures Wire(ls + [l]) == Wire(ls) + ([|l| % 256] + l)
  {
    if ls == [] {
      assert ls + [l] == [l];
    } else {
      assert (ls + [l])[1..] == ls[1..] + [l];
      WireSnoc(ls[1..], l);
    }
  }

  lemma {:induction false} WireLength(s: seq<Byte>)
    ensures |Wire(Tokens(s))| <= |s| + 1
    decreases |s|
  {
    var r := SkipDots(s);
    if r != [] {
      var n := TokenLen(r);
      var rest := r[n..];
      if rest == [] {
        assert Tokens(rest) == [];
      } else {
        assert Tokens(rest) == Tokens(rest[1..]);
        WireLength(rest[1..]);
      }
      assert Tokens(s)[1..] == Tokens(rest);
    }
  }

  lemma {:induction false} WireConcat(xs: seq<Label>, ys: seq<Label>)
    ensures Wire(xs + ys) == Wire(xs) + Wire(ys)
  {
    if xs == [] {
      assert xs + ys == ys;
    } else {
      assert (xs + ys)[1..] == xs[1..] + ys;
      WireConcat(xs[1..], ys);
    }
  }

  /** The buffer once some labels have been written, with the NUL of `sprintf`. */
  ghost function Encoded(before: seq<Byte>, ls: seq<Label>): seq<Byte>
    requires ls == [] || |Wire(ls)| < |before|
  {
    if ls == [] then before else Layout(before, 0, Wire(ls) + [0])
  }

  lemma EncodedSnoc(before: seq<Byte>, ls: seq<Label>, l: Label)
    requires |Wire(ls)| + |l| + 1 < |before|
    ensures |Wire(ls + [l])| == |Wire(ls)| + |l| + 1
    ensures Layout(Encoded(before, ls), |Wire(ls)|, [|l| % 256] + l + [0]) == Encoded(before, ls + [l])
  {
    WireSnoc(ls, l);
    var x, y := Wire(ls), [|l| % 256] + l;
    hide Wire;
    if ls != [] {
      Relayout(before, x, y);
      assert x + y + [0] == Wire(ls + [l]) + [0];
    } else {
      EmptyWire();
      assert x + y == y;
    }
  }

  lemma EmptyWire()
    ensures Wire([]) == []
  {
  }

  lemma Relayout(before: seq<Byte>, x: seq<Byte>, y: seq<Byte>)
    requires |x| + |y| < |before| && y != []
    ensures Layout(Layout(before, 0, x + [0]), |x|, y + [0]) == Layout(before, 0, x + y + [0])
  {
  }

  /** The name is refused only if the buffer may be too small; a name without labels writes nothing. */
  method EncodeDotStr(dotStr: seq<Byte>, enc: array<Byte>, size: Word) returns (ok: bool)
    requires |dotStr| < 0x1_0000 && size <= enc.Length
    modifies enc
    ensures |Wire(Tokens(dotStr))| <= |dotStr| + 1
    ensures ok == (size >= |dotStr| + 2)
    ensures enc[..] == if ok then Encoded(old(enc[..]), Tokens(dotStr)) else old(enc[..])
  {
    WireLength(dotStr);
    if size < |dotStr| + 2 {
      return false;
    }
    hide Wire, Encoded, Layout;
    ghost var before := enc[..];
    ghost var all := Tokens(dotStr);
    ghost var done: seq<Label> := [];
    var rest, n := SkipDots(dotStr), 0;
    EncodedStart(before);
    TokensSkip(dotStr);
    while rest != []
      invariant all == done + Tokens(rest) && n == |Wire(done)| && SkipDots(rest) == rest
      invariant |Wire(done)| < size && enc[..] == Encoded(before, done)
      decreases |rest|
    {
      var k := TokenLen(rest);
      var l := rest[..k];
      assert all == (done + [l]) + Tokens(rest[k..]);
      WireConcat(done + [l], Tokens(rest[k..]));
      WireSnoc(done, l);
      EncodedSnoc(before, done, l);
      Put(enc, n, [|l| % 256] + l + [0]);
      n := n + k + 1;
      done := done + [l];
      TokensSkip(rest[k..]);
      rest := SkipDots(rest[k..]);
    }
    assert done == all;
    ok := true;
  }

  lemma EncodedStart(before: seq<Byte>)
    ensures Wire([]) == [] && Encoded(before, []) == before
  {
  }

  lemma {:induction false} TokensSkip(s: seq<Byte>)
    ensures SkipDots(SkipDots(s)) == SkipDots(s) && Tokens(SkipDots(s)) == Tokens(s)
  {
  }

  // ----- the round trip

  ghost predicate Encodable(ls: seq<Label>) {
    forall i :: 0 <= i < |ls| ==> 0 < |ls[i]| < 64
  }

  lemma Slice(pkt: seq<Byte>, pos: nat, w: seq<Byte>, a: nat, b: nat)
    requires pos + |w| <= |pkt| && pkt[pos..pos + |w|] == w && a <= b <= |w|
    ensures pkt[pos + a..pos + b] == w[a..b]
  {
    forall k | 0 <= k < b - a ensures pkt[pos + a..pos + b][k] == w[a..b][k] {
      assert pkt[pos..pos + |w|][a + k] == w[a + k];
    }
  }

  /** The encoding of `ls` stands at `pos`, and something follows it. */
  ghost predicate LabelsAt(pkt: seq<Byte>, pos: nat, ls: seq<Label>) {
    pos + |Wire(ls)| < |pkt| && pkt[pos..pos + |Wire(ls)|] == Wire(ls)
  }

  /** The encoding of `ls` and a root label stand at `pos`. */
  ghost predicate WireAt(pkt: seq<Byte>, pos: nat, ls: seq<Label>) {
    LabelsAt(pkt, pos, ls) && pkt[pos + |Wire(ls)|] == 0
  }

  lemma WireParts(ls: seq<Label>)
    requires Encodable(ls) && ls != []
    ensures var l, w := ls[0], Wire(ls);
            && |w| == 1 + |l| + |Wire(ls[1..])|
            && w[0] == |l| && w[1..1 + |l|] == l && w[1 + |l|..] == Wire(ls[1..])
  {
    assert Wire(ls) == [|ls[0]| % 256] + ls[0] + Wire(ls[1..]);
  }

  lemma EncodableRest(ls: seq<Label>)
    requires Encodable(ls) && ls != []
    ensures Encodable(ls[1..]) && 0 < |ls[0]| < 64
  {
  }

  lemma FirstOfConcat(pre: seq<Label>, ls: seq<Label>)
    requires pre != []
    ensures (pre + ls)[0] == pre[0] && (pre + ls)[1..] == pre[1..] + ls
  {
  }

  /** A length byte, a label and the rest, where they stand in a packet. */
  lemma PacketParts(pkt: seq<Byte>, pos: nat, w: seq<Byte>, n: nat)
    requires 1 + n <= |w| && pos + |w| <= |pkt| && pkt[pos..pos + |w|] == w
    ensures pkt[pos] == w[0] && pkt[pos + 1..pos + 1 + n] == w[1..1 + n]
    ensures pkt[pos + 1 + n..pos + |w|] == w[1 + n..]
  {
    assert pkt[pos] == pkt[pos..pos + |w|][0];
    Slice(pkt, pos, w, 1, 1 + n);
    Slice(pkt, pos, w, 1 + n, |w|);
    assert w[1 + n..|w|] == w[1 + n..];
  }

  lemma WireUncons(pkt: seq<Byte>, pos: nat, ls: seq<Label>)
    requires LabelsAt(pkt, pos, ls) && Encodable(ls) && ls != []
    ensures pkt[pos] == |ls[0]| && pos + 1 + |ls[0]| < |pkt|
    ensures ls[0] == pkt[pos + 1..pos + 1 + |ls[0]|]
    ensures LabelsAt(pkt, pos + 1 + |ls[0]|, ls[1..]) && Encodable(ls[1..])
    ensures |Wire(ls)| == 1 + |ls[0]| + |Wire(ls[1..])|
  {
    hide Wire, Encodable;
    WireParts(ls);
    EncodableRest(ls);
    PacketParts(pkt, pos, Wire(ls), |ls[0]|);
  }

  /** Encoded labels, wherever they stand in a packet, spell themselves. */
  lemma {:induction false} WireSpells(pkt: seq<Byte>, pointers: bool, pos: nat, ls: seq<Label>)
    requires Encodable(ls) && WireAt(pkt, pos, ls)
    ensures Spells(pkt, pointers, pos, ls)
    ensures ls != [] ==> HasLabel(pkt, pointers, pos)
    ensures InPlace(pkt, pos) == |Wire(ls)| + 1
    decreases |ls|
  {
    if ls != [] {
      WireUncons(pkt, pos, ls);
      WireSpells(pkt, pointers, pos + 1 + |ls[0]|, ls[1..]);
      hide LabelsAt;
    }
  }

  lemma {:induction false} WireWellFormed(pkt: seq<Byte>, pointers: bool, pos: nat, ls: seq<Label>, size: nat)
    requires Encodable(ls) && WireAt(pkt, pos, ls)
    ensures WellFormed(pkt, pointers, pos, size)
    decreases |ls|
  {
    if ls != [] {
      WireUncons(pkt, pos, ls);
      if |ls[0]| + 1 <= size {
        WireWellFormed(pkt, pointers, pos + 1 + |ls[0]|, ls[1..], size - |ls[0]| - 1);
      }
      hide LabelsAt;
    }
  }

  /** The tokens of labels joined by dots are those labels. */
  lemma {:induction false} TokensJoin(ls: seq<Label>)
    requires Encodable(ls) && forall i :: 0 <= i < |ls| ==> DOT !in ls[i]
    ensures Tokens(Join(ls)) == ls
    decreases |ls|
  {
    if ls != [] {
      var l := ls[0];
      assert l[0] in l;
      if |ls| == 1 {
        TokenWhole(l, []);
        assert l + [] == l;
        assert Tokens([]) == [];
      } else {
        var rest := [DOT] + Join(ls[1..]);
        assert Join(ls) == l + rest;
        TokenWhole(l, rest);
        assert SkipDots(rest) == SkipDots(Join(ls[1..])) by { assert rest[1..] == Join(ls[1..]); }
        TokensJoin(ls[1..]);
        assert (l + rest)[|l|..] == rest && (l + rest)[..|l|] == l;
        assert Tokens(rest) == Tokens(Join(ls[1..]));
      }
    }
  }

  lemma {:induction false} TokenWhole(l: Label, rest: seq<Byte>)
    requires DOT !in l && (rest == [] || rest[0] == DOT)
    ensures TokenLen(l + rest) == |l|
  {
    if l != [] {
      assert (l + rest)[0] == l[0] && (l + rest)[1..] == l[1..] + rest;
      assert l[0] in l;
      TokenWhole(l[1..], rest);
    } else {
      assert l + rest == rest;
    }
  }

  /** A name that is known to spell `ls`, and to fit, decodes to the text of `ls`. */
  method DecodeSpelled(pkt: seq<Byte>, pointers: bool, pos: nat, dot: array<Byte>, ghost ls: seq<Label>)
    returns (encodedLen: Word)
    requires dot.Length < 0x1_0000 && WellFormed(pkt, pointers, pos, dot.Length) && HasLabel(pkt, pointers, pos)
    requires Spells(pkt, pointers, pos, ls) && |Dotted(ls)| <= dot.Length
    modifies dot
    ensures 0 < |Dotted(ls)| && dot[..] == Finished(old(dot[..]), 0, Dotted(ls))
    ensures encodedLen == InPlace(pkt, pos) % 0x1_0000
  {
    hide Dotted, Spells, Layout, Finished, WellFormed, InPlace, HasLabel;
    var ok;
    ghost var found;
    ok, encodedLen, found := DecodeDotStr(pkt, pointers, pos, dot, 0, dot.Length);
    assert ok;
    SpellsUnique(pkt, pointers, pos, ls, found);
  }

  /** Encoding a name and decoding the result gives the name back, NUL-terminated. */
  method RoundTrip(ls: seq<Label>, enc: array<Byte>, dot: array<Byte>) returns (encodedLen: nat)
    requires ls != [] && Encodable(ls) && forall i :: 0 <= i < |ls| ==> DOT !in ls[i]
    requires |Join(ls)| + 2 <= enc.Length < 0x1_0000 && |Join(ls)| + 1 <= dot.Length < 0x1_0000 && enc != dot
    modifies enc, dot
    ensures dot[..|Join(ls)| + 1] == Join(ls) + [0]
    ensures encodedLen == |Wire(ls)| + 1
  {
    WireLength(Join(ls));
    TokensJoin(ls);
    DottedJoin(ls);
    hide Dotted, Join, Wire, Tokens, Spells, Layout, Finished, WellFormed, InPlace, HasLabel, Encodable;
    ghost var before, text := enc[..], dot[..];
    var ok := EncodeDotStr(Join(ls), enc, enc.Length);
    EncodedSpells(before, ls, dot.Length);
    encodedLen := DecodeSpelled(enc[..], false, 0, dot, ls);
    FinishedName(text, Join(ls));
  }

  lemma EncodedSpells(before: seq<Byte>, ls: seq<Label>, size: nat)
    requires ls != [] && Encodable(ls) && |Wire(ls)| < |before|
    ensures Spells(Encoded(before, ls), false, 0, ls) && HasLabel(Encoded(before, ls), false, 0)
    ensures WellFormed(Encoded(before, ls), false, 0, size)
    ensures InPlace(Encoded(before, ls), 0) == |Wire(ls)| + 1
  {
    var pkt := Encoded(before, ls);
    assert pkt[0..0 + |Wire(ls)|] == Wire(ls);
    WireSpells(pkt, false, 0, ls);
    WireWellFormed(pkt, false, 0, ls, size);
  }

  lemma FinishedName(before: seq<Byte>, name: seq<Byte>)
    requires |name| + 1 <= |before|
    ensures Finished(before, 0, name + [DOT])[..|name| + 1] == name + [0]
  {
  }

  // ----- compression

  /** The encoding of `pre` and a pointer to offset `o` stand at `pos`: 14 bits below two ones. */
  ghost predicate PointerAt(pkt: seq<Byte>, pos: nat, pre: seq<Label>, o: nat) {
    && LabelsAt(pkt, pos, pre)
    && var p := pos + |Wire(pre)|;
       p + 1 < |pkt| && pkt[p] == 0xc0 + o / 256 && pkt[p + 1] == o % 256
  }

  lemma PointerUncons(pkt: seq<Byte>, pos: nat, pre: seq<Label>, o: nat)
    requires PointerAt(pkt, pos, pre, o) && Encodable(pre) && pre != []
    ensures pkt[pos] == |pre[0]| && pos + 1 + |pre[0]| < |pkt| && pre[0] == pkt[pos + 1..pos + 1 + |pre[0]|]
    ensures PointerAt(pkt, pos + 1 + |pre[0]|, pre[1..], o) && Encodable(pre[1..])
    ensures |Wire(pre)| == 1 + |pre[0]| + |Wire(pre[1..])|
  {
    WireUncons(pkt, pos, pre);
    hide LabelsAt, Wire;
  }

  lemma JumpTarget(pkt: seq<Byte>, p: nat, o: nat)
    requires o < 0x4000 && p + 1 < |pkt| && pkt[p] == 0xc0 + o / 256 && pkt[p + 1] == o % 256
    ensures JumpAt(pkt, p) == o && 64 <= pkt[p]
  {
  }

  /** A compressed name spells its own labels and then those at the offset. */
  lemma {:induction false} CompressedSpells(pkt: seq<Byte>, pos: nat, pre: seq<Label>, o: nat, ls: seq<Label>)
    requires o < 0x4000 && o < pos && Encodable(pre) && PointerAt(pkt, pos, pre, o) && Spells(pkt, true, o, ls)
    ensures Spells(pkt, true, pos, pre + ls)
    decreases |pre|
  {
    if pre == [] {
      JumpTarget(pkt, pos, o);
      assert pre + ls == ls;
    } else {
      hide PointerAt, Spells, Encodable, Wire, JumpAt;
      EncodableRest(pre);
      PointerUncons(pkt, pos, pre, o);
      CompressedSpells(pkt, pos + 1 + |pre[0]|, pre[1..], o, ls);
      FirstOfConcat(pre, ls);
      SpellsLabel(pkt, true, pos, |pre[0]|, pre[0], pre + ls);
    }
  }

  lemma {:induction false} CompressedInPlace(pkt: seq<Byte>, pos: nat, pre: seq<Label>, o: nat)
    requires o < 0x4000 && o < pos && Encodable(pre) && PointerAt(pkt, pos, pre, o)
    ensures InPlace(pkt, pos) == |Wire(pre)| + 2
    ensures pre != [] || HasLabel(pkt, true, o) ==> HasLabel(pkt, true, pos)
    decreases |pre|
  {
    if pre == [] {
      JumpTarget(pkt, pos, o);
    } else {
      PointerUncons(pkt, pos, pre, o);
      CompressedInPlace(pkt, pos + 1 + |pre[0]|, pre[1..], o);
      hide PointerAt;
    }
  }

  lemma {:induction false} CompressedWellFormed(pkt: seq<Byte>, pos: nat, pre: seq<Label>, o: nat, size: nat)
    requires o < 0x4000 && o < pos && Encodable(pre) && PointerAt(pkt, pos, pre, o)
    requires forall n: nat :: WellFormed(pkt, true, o, n)
    ensures WellFormed(pkt, true, pos, size)
    decreases |pre|
  {
    if pre == [] {
      JumpTarget(pkt, pos, o);
    } else {
      PointerUncons(pkt, pos, pre, o);
      if |pre[0]| + 1 <= size {
        CompressedWellFormed(pkt, pos + 1 + |pre[0]|, pre[1..], o, size - |pre[0]| - 1);
      }
      hide PointerAt;
    }
  }

  lemma CompressedName(pkt: seq<Byte>, pos: nat, pre: seq<Label>, o: nat, ls: seq<Label>, size: nat)
    requires o < 0x4000 && o < pos && Encodable(pre) && PointerAt(pkt, pos, pre, o)
    requires Encodable(ls) && WireAt(pkt, o, ls)
    ensures Spells(pkt, true, pos, pre + ls) && WellFormed(pkt, true, pos, size)
    ensures InPlace(pkt, pos) == |Wire(pre)| + 2 && (pre + ls != [] ==> HasLabel(pkt, true, pos))
  {
    hide Spells, WellFormed, HasLabel, InPlace, PointerAt, WireAt, Encodable, Wire;
    WireSpells(pkt, true, o, ls);
    forall n: nat ensures WellFormed(pkt, true, o, n) { WireWellFormed(pkt, true, o, ls, n); }
    CompressedSpells(pkt, pos, pre, o, ls);
    CompressedInPlace(pkt, pos, pre, o);
    CompressedWellFormed(pkt, pos, pre, o, size);
  }

  /** Decoding a name that ends in a pointer gives the labels written and those pointed at. */
  method DecodeCompressed(pkt: seq<Byte>, pos: nat, dot: array<Byte>,
                          ghost pre: seq<Label>, ghost o: nat, ghost ls: seq<Label>)
    returns (encodedLen: Word)
    requires o < 0x4000 && o < pos && Encodable(pre) && PointerAt(pkt, pos, pre, o)
    requires Encodable(ls) && WireAt(pkt, o, ls) && pre + ls != []
    requires |Join(pre + ls)| + 1 <= dot.Length < 0x1_0000
    modifies dot
    ensures dot[..|Join(pre + ls)| + 1] == Join(pre + ls) + [0]
    ensures encodedLen == (|Wire(pre)| + 2) % 0x1_0000
  {
    ghost var all, text := pre + ls, dot[..];
    CompressedName(pkt, pos, pre, o, ls, dot.Length);
    DottedJoin(all);
    hide Dotted, Join, Wire, Spells, Finished, WellFormed, InPlace, HasLabel, Encodable, WireAt, PointerAt;
    encodedLen := DecodeSpelled(pkt, true, pos, dot, all);
    FinishedName(text, Join(all));
  }
}

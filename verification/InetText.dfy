/**
 Presentation form of Internet addresses, stated without reference to how it
 is computed: the text that section 2.2 of RFC 4291 gives to an address once
 a run of zero words to abbreviate has been chosen.
 */
module InetText {
  import opened Common

  function Digit(d: nat): char
    requires d < 16
  {
    "0123456789abcdef"[d]
  }

  /** `%x`: base 16, lower case, no leading zeros. */
  function Hex(w: nat): (s: string)
    ensures 0 < |s|
  {
    if w < 16 then [Digit(w)] else Hex(w / 16) + [Digit(w % 16)]
  }

  /** `%u`: base 10, no leading zeros. */
  function Dec(n: nat): (s: string)
    ensures 0 < |s|
  {
    if n < 10 then [Digit(n)] else Dec(n / 10) + [Digit(n % 10)]
  }

  /** A dotted quad. */
  function Quad(b: seq<Byte>): string
    requires |b| == 4
  {
    Dec(b[0]) + "." + Dec(b[1]) + "." + Dec(b[2]) + "." + Dec(b[3])
  }

  /** Hexadecimal groups separated by colons. */
  function Groups(ws: seq<Word>): string {
    if |ws| == 0 then ""
    else if |ws| == 1 then Hex(ws[0])
    else Hex(ws[0]) + ":" + Groups(ws[1..])
  }

  /** Network byte order of a sequence of words. */
  function BytesOf(ws: seq<Word>): (b: seq<Byte>)
    ensures |b| == 2 * |ws|
  {
    if |ws| == 0 then [] else [ws[0] / 256, ws[0] % 256] + BytesOf(ws[1..])
  }

  /** The word whose bytes in network order are `hi` and `lo`. */
  function Pair(hi: Byte, lo: Byte): Word {
    var h: int := hi;
    h * 256 + lo
  }

  function WordsOf(b: seq<Byte>): (ws: seq<Word>)
    requires |b| % 2 == 0
    ensures |ws| == |b| / 2
    ensures forall i :: 0 <= i < |ws| ==> ws[i] == Pair(b[2 * i], b[2 * i + 1])
  {
    seq(|b| / 2, i requires 0 <= i < |b| / 2 => Pair(b[2 * i], b[2 * i + 1]))
  }

  /** A run of words abbreviated to `::`. */
  datatype ZeroRun = ZeroRun(base: nat, len: nat)

  ghost predicate AllZero(ws: seq<Word>, base: nat, len: nat) {
    base + len <= |ws| && forall k :: base <= k < base + len ==> ws[k] == 0
  }

  /** `run` is the leftmost of the longest runs of at least two zero words. */
  ghost predicate IsBestRun(ws: seq<Word>, run: ZeroRun) {
    && 2 <= run.len
    && AllZero(ws, run.base, run.len)
    && forall b: nat, n: nat :: AllZero(ws, b, n) ==>
         n <= run.len && (n == run.len ==> run.base <= b)
  }

  /** The run to abbreviate, if any word sequence of two zeros occurs at all. */
  ghost function BestRun(ws: seq<Word>): (r: Option<ZeroRun>)
    ensures r.Some? ==> IsBestRun(ws, r.value)
    ensures r.None? ==> !exists run :: IsBestRun(ws, run)
  {
    if exists run :: IsBestRun(ws, run) then var run :| IsBestRun(ws, run); Some(run) else None
  }

  /** The last 32 bits are written as a dotted quad. */
  predicate EmbedsIPv4(ws: seq<Word>, run: ZeroRun)
    requires |ws| == 8
  {
    run.base == 0 && (run.len == 6 || (run.len == 5 && ws[5] == 0xffff))
  }

  /** The text of an address with the given run abbreviated. */
  function TextWith(ws: seq<Word>, r: Option<ZeroRun>): string
    requires |ws| == 8
    requires r.Some? ==> r.value.base + r.value.len <= 8
  {
    match r
    case None => Groups(ws)
    case Some(run) =>
      if EmbedsIPv4(ws, run) then
        (if run.len == 6 then "::" else "::ffff:") + Quad(BytesOf(ws[6..]))
      else
        Groups(ws[..run.base]) + "::" + Groups(ws[run.base + run.len..])
  }

  /** The presentation form of a 16-byte address. */
  ghost function Text6(src: seq<Byte>): string
    requires |src| == 16
  {
    TextWith(WordsOf(src), BestRun(WordsOf(src)))
  }

  // ----- facts about the definitions

  lemma BestRunUnique(ws: seq<Word>, run: ZeroRun)
    requires IsBestRun(ws, run)
    ensures BestRun(ws) == Some(run)
  {
    var other := BestRun(ws).value;
    assert AllZero(ws, other.base, other.len) && AllZero(ws, run.base, run.len);
  }

  /** `BestRun` abbreviates something exactly when two adjacent words are zero. */
  lemma {:induction false} BestRunExists(ws: seq<Word>, b: nat, n: nat)
    requires 2 <= n && AllZero(ws, b, n)
    ensures BestRun(ws).Some?
    decreases |ws| - n, b
  {
    if exists b': nat, n': nat :: AllZero(ws, b', n') && (n < n' || (n == n' && b' < b)) {
      var b': nat, n': nat :| AllZero(ws, b', n') && (n < n' || (n == n' && b' < b));
      BestRunExists(ws, b', n');
    } else {
      assert IsBestRun(ws, ZeroRun(b, n));
    }
  }

  lemma WordsOfTail(b: seq<Byte>)
    requires |b| % 2 == 0 && b != []
    ensures WordsOf(b)[1..] == WordsOf(b[2..])
  {
    var tail, words := b[2..], WordsOf(b)[1..];
    forall i | 0 <= i < |words|
      ensures words[i] == WordsOf(tail)[i]
    {
      assert tail[2 * i] == b[2 * (i + 1)] && tail[2 * i + 1] == b[2 * (i + 1) + 1];
    }
  }

  lemma PairSplits(hi: Byte, lo: Byte)
    ensures Pair(hi, lo) / 256 == hi && Pair(hi, lo) % 256 == lo
  {
  }

  lemma BytesOfUncons(ws: seq<Word>, b: seq<Byte>)
    requires ws != [] && 2 <= |b| && BytesOf(ws[1..]) == b[2..]
    requires ws[0] / 256 == b[0] && ws[0] % 256 == b[1]
    ensures BytesOf(ws) == b
  {
  }

  lemma {:induction false} BytesOfWordsOf(b: seq<Byte>)
    requires |b| % 2 == 0
    ensures BytesOf(WordsOf(b)) == b
  {
    if b != [] {
      WordsOfTail(b);
      BytesOfWordsOf(b[2..]);
      PairSplits(b[0], b[1]);
      BytesOfUncons(WordsOf(b), b);
    }
  }

  lemma {:induction false} BytesOfConcat(xs: seq<Word>, ys: seq<Word>)
    ensures BytesOf(xs + ys) == BytesOf(xs) + BytesOf(ys)
  {
    if xs == [] {
      assert xs + ys == ys;
    } else {
      assert (xs + ys)[1..] == xs[1..] + ys;
      BytesOfConcat(xs[1..], ys);
    }
  }

  lemma {:induction false} BytesOfZeros(xs: seq<Word>)
    requires AllZero(xs, 0, |xs|)
    ensures BytesOf(xs) == Zeros(2 * |xs|)
  {
    if xs != [] {
      BytesOfZeros(xs[1..]);
    }
  }

  lemma JoinAssoc(a: string, x: string, h: string)
    ensures a + ":" + (x + ":" + h) == a + ":" + x + ":" + h
  {
  }

  lemma {:induction false} GroupsSnoc(ws: seq<Word>, w: Word)
    ensures Groups(ws + [w]) == (if ws == [] then Hex(w) else Groups(ws) + ":" + Hex(w))
  {
    hide Hex;
    if ws != [] {
      var rest := ws[1..];
      assert (ws + [w])[0] == ws[0] && (ws + [w])[1..] == rest + [w];
      GroupsSnoc(rest, w);
      JoinAssoc(Hex(ws[0]), Groups(rest), Hex(w));
    }
  }

  lemma HexLength(w: Word)
    ensures |Hex(w)| <= 4
  {
    assert |Hex(w / 16 / 16 / 16)| == 1;
    assert |Hex(w / 16 / 16)| <= 2;
    assert |Hex(w / 16)| <= 3;
  }

  lemma HexFfff()
    ensures Hex(0xffff) == "ffff"
  {
    assert Hex(0xf) == "f" && Hex(0xff) == "ff" && Hex(0xfff) == "fff";
  }

  lemma DecLength(b: Byte)
    ensures |Dec(b)| <= 3
  {
    assert |Dec(b / 10 / 10)| == 1;
    assert |Dec(b / 10)| <= 2;
  }

  lemma {:induction false} GroupsLength(ws: seq<Word>)
    ensures |Groups(ws)| <= 5 * |ws|
  {
    if ws != [] {
      HexLength(ws[0]);
      GroupsLength(ws[1..]);
    }
  }

  /** No numeral starts with a zero, except zero itself. */
  lemma {:induction false} NoLeadingZero(n: nat)
    requires 0 < n
    ensures Hex(n)[0] != '0' && Dec(n)[0] != '0'
  {
    if 16 <= n { NoLeadingZero(n / 16); }
    if 10 <= n { NoLeadingZero(n / 10); }
  }
}

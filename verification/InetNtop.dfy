/** Network to presentation form: `inet_ntop4` and `inet_ntop6`. */
module InetNtop {
  import opened Common
  import opened InetText

  /** `sizeof "ffff:ffff:ffff:ffff:ffff:ffff:255.255.255.255"` */
  const TMP_SIZE := 46

  /** `strcpy(dst + at, text)`; the result is where the NUL is. */
  method Strcpy(dst: array<char>, at: nat, text: string) returns (end: nat)
    requires at + |text| < dst.Length
    modifies dst
    ensures end == at + |text| && dst[..end] == old(dst[..at]) + text
    ensures dst[..] == old(dst[..at]) + text + ['\0'] + old(dst[..])[end + 1..]
  {
    forall k | 0 <= k < |text| {
      dst[at + k] := text[k];
    }
    end := at + |text|;
    dst[end] := '\0';
  }

  /** `sprintf(tp, "%s", text)`, and `tp += strlen(tp)`. */
  method Append(tmp: array<char>, at: nat, text: string) returns (tp: nat)
    requires at + |text| < tmp.Length
    modifies tmp
    ensures tp == at + |text|
    ensures tmp[..tp] == old(tmp[..at]) + text
  {
    tp := Strcpy(tmp, at, text);
  }

  lemma QuadLength(src: seq<Byte>)
    requires |src| == 4
    ensures 7 <= |Quad(src)| <= 15
  {
    DecLength(src[0]);
    DecLength(src[1]);
    DecLength(src[2]);
    DecLength(src[3]);
  }

  /**
   Writes the text of four octets at `at`, where the caller has announced `size`
   bytes, and returns where the NUL is. The size test does not count the NUL
   (the one in `InetNtop6` does): with exactly `size` characters of text it
   falls just outside those bytes, and the caller must own that place as well.
   */
  method InetNtop4(src: seq<Byte>, dst: array<char>, at: nat, size: nat) returns (ok: bool, end: nat)
    requires |src| == 4
    requires |Quad(src)| <= size ==> at + |Quad(src)| < dst.Length
    modifies dst
    ensures ok == (|Quad(src)| <= size)
    ensures ok ==> end == at + |Quad(src)| && dst[..end] == old(dst[..at]) + Quad(src)
    ensures ok ==> dst[..] == old(dst[..at]) + Quad(src) + ['\0'] + old(dst[..])[end + 1..]
    ensures ok ==> (at + size <= end <==> |Quad(src)| == size)
    ensures !ok ==> dst[..] == old(dst[..])
    ensures 16 <= size ==> ok && end < at + size
  {
    QuadLength(src);
    var tmp := Quad(src);
    if |tmp| > size {
      return false, at;
    }
    end := Strcpy(dst, at, tmp);
    ok := true;
  }

  /** The input and the size for which the NUL lands outside. */
  lemma QuadOverrun()
    ensures |Quad([255, 255, 255, 255])| == 15
  {
    assert Dec(2) == "2" && Dec(25) == "25";
    assert |Dec(255)| == 3;
  }

  /** Word `k` once the bytes below `i` have been added. */
  function Packed(src: seq<Byte>, k: nat, i: nat): Word
    requires 2 * k + 1 < |src|
  {
    Pair(if 2 * k < i then src[2 * k] else 0, if 2 * k + 1 < i then src[2 * k + 1] else 0)
  }

  /** Packs the bytes into words; a byte lands in bits that are still clear. */
  method PackWords(src: seq<Byte>) returns (words: array<Word>)
    requires |src| == 16
    ensures fresh(words) && words[..] == WordsOf(src)
  {
    words := new Word[8](_ => 0);
    for i := 0 to 16
      invariant forall k :: 0 <= k < 8 ==> words[k] == Packed(src, k, i)
    {
      var word: int := words[i / 2];
      words[i / 2] := word + if i % 2 == 0 then Pair(src[i], 0) else src[i];
    }
  }

  /** `base` and `len` describe the leftmost longest zero run that ends by `upto`. */
  ghost predicate BestUpTo(ws: seq<Word>, upto: nat, base: int, len: int) {
    if base == -1 then
      forall b: nat, n: nat :: AllZero(ws, b, n) && b + n <= upto ==> n == 0
    else
      && 0 <= base && 1 <= len && base + len <= upto && AllZero(ws, base, len)
      && forall b: nat, n: nat :: AllZero(ws, b, n) && b + n <= upto ==>
           n <= len && (n == len ==> base <= b)
  }

  /** A run of zeros that is bounded on the left by `from` and ends at `to`. */
  ghost predicate Current(ws: seq<Word>, from: nat, to: nat) {
    from < to && AllZero(ws, from, to - from) && (from == 0 || ws[from - 1] != 0)
  }

  /** Closing the current run: it replaces the best one only if it is longer. */
  lemma CloseRun(ws: seq<Word>, from: nat, to: nat, base: int, len: int)
    requires BestUpTo(ws, from, base, len) && Current(ws, from, to)
    ensures if base == -1 || to - from > len then BestUpTo(ws, to, from, to - from)
            else BestUpTo(ws, to, base, len)
  {
    forall b: nat, n: nat | AllZero(ws, b, n) && b + n <= to && 0 < n
      ensures b + n <= from || from <= b
    {
    }
  }

  /** The search for the run to abbreviate, ending with its length test. */
  method FindBestRun(words: array<Word>) returns (base: int, len: int)
    ensures base == -1 ==> BestRun(words[..]) == None
    ensures base != -1 ==> 0 <= base && 0 <= len && BestRun(words[..]) == Some(ZeroRun(base, len))
  {
    ghost var ws := words[..];
    var curBase, curLen := -1, 0;
    base, len := -1, 0;
    for i := 0 to words.Length
      invariant curBase == -1 ==> BestUpTo(ws, i, base, len) && (i == 0 || ws[i - 1] != 0)
      invariant curBase != -1 ==> 0 <= curBase < i && curLen == i - curBase
      invariant curBase != -1 ==> Current(ws, curBase, i) && BestUpTo(ws, curBase, base, len)
    {
      if words[i] == 0 {
        if curBase == -1 {
          curBase, curLen := i, 1;
        } else {
          curLen := curLen + 1;
        }
      } else if curBase != -1 {
        CloseRun(ws, curBase, i, base, len);
        if base == -1 || curLen > len {
          base, len := curBase, curLen;
        }
        curBase := -1;
      }
    }
    if curBase != -1 {
      CloseRun(ws, curBase, words.Length, base, len);
      if base == -1 || curLen > len {
        base, len := curBase, curLen;
      }
    }
    assert BestUpTo(ws, |ws|, base, len);
    if base != -1 && len < 2 {
      NoRun(ws, base, len);
      base := -1;
    } else if base != -1 {
      assert IsBestRun(ws, ZeroRun(base, len));
      BestRunUnique(ws, ZeroRun(base, len));
    } else {
      NoRun(ws, base, len);
    }
  }

  lemma NoRun(ws: seq<Word>, base: int, len: int)
    requires BestUpTo(ws, |ws|, base, len) && (base == -1 || len < 2)
    ensures BestRun(ws) == None
  {
    if BestRun(ws).Some? {
      assert false;
    }
  }

  /** What has been written once the words below `i` have been formatted. */
  ghost function Progress(ws: seq<Word>, base: int, len: int, i: nat): string
    requires i <= |ws| && (base == -1 || (0 <= base && 0 < len && base + len <= |ws|))
  {
    if base == -1 || i <= base then Groups(ws[..i])
    else if i <= base + len then Groups(ws[..base]) + ":"
    else Groups(ws[..base]) + "::" + Groups(ws[base + len..i])
  }

  /** What the loop body writes for word `i`. */
  ghost function Piece(ws: seq<Word>, base: int, len: int, i: nat): string
    requires i < |ws|
  {
    if base != -1 && base <= i < base + len then (if i == base then ":" else "")
    else (if i != 0 then ":" else "") + Hex(ws[i])
  }

  lemma GroupsUpTo(ws: seq<Word>, from: nat, i: nat)
    requires from <= i < |ws|
    ensures Groups(ws[from..i + 1])
         == (if from == i then "" else Groups(ws[from..i]) + ":") + Hex(ws[i])
  {
    assert ws[from..i + 1] == ws[from..i] + [ws[i]];
    GroupsSnoc(ws[from..i], ws[i]);
  }

  lemma ProgressStep(ws: seq<Word>, base: int, len: int, i: nat)
    requires i < |ws| && (base == -1 || (0 <= base && 2 <= len && base + len <= |ws|))
    ensures Progress(ws, base, len, i + 1) == Progress(ws, base, len, i) + Piece(ws, base, len, i)
  {
    hide Groups, Hex;
    if base == -1 || i < base {
      assert ws[..i + 1] == ws[0..i + 1] && ws[..i] == ws[0..i];
      GroupsUpTo(ws, 0, i);
      NoGroups(ws[..i]);
    } else if base + len <= i {
      GroupsUpTo(ws, base + len, i);
      if base + len < i {
        Regroup(Groups(ws[..base]), Groups(ws[base + len..i]), Hex(ws[i]));
      } else {
        assert Groups(ws[..base]) + "::" + ("" + Hex(ws[i])) == Groups(ws[..base]) + ":" + (":" + Hex(ws[i]));
      }
    }
  }

  lemma Regroup(g: string, x: string, h: string)
    ensures g + "::" + (x + ":" + h) == g + "::" + x + (":" + h)
  {
  }

  lemma NoGroups(ws: seq<Word>)
    ensures ws == [] ==> Groups(ws) == ""
  {
  }

  lemma ProgressLength(ws: seq<Word>, base: int, len: int, i: nat)
    requires i <= |ws| && (base == -1 || (0 <= base && 2 <= len && base + len <= |ws|))
    ensures |Progress(ws, base, len, i)| <= 5 * i
  {
    hide Groups;
    if base == -1 || i <= base {
      GroupsLength(ws[..i]);
    } else {
      GroupsLength(ws[..base]);
      if base + len < i {
        GroupsLength(ws[base + len..i]);
      }
    }
  }

  /** At most five groups and a quad are ever written. */
  lemma QuadFits(ws: seq<Word>, len: int)
    requires |ws| == 8 && 5 <= len <= 6
    ensures |Progress(ws, 0, len, 6)| <= 7
  {
    hide Hex;
    GroupsLength(ws[len..6]);
    NoGroups(ws[..0]);
  }

  /** The formatting loop; every write stays inside `tmp`, with room for the NUL. */
  method Format(src: seq<Byte>, words: array<Word>, base: int, len: int, tmp: array<char>) returns (tp: nat)
    requires |src| == 16 && words.Length == 8 && words[..] == WordsOf(src) && tmp.Length == TMP_SIZE
    requires base == -1 || (0 <= base && 2 <= len && base + len <= 8)
    modifies tmp
    ensures tp + 1 < TMP_SIZE
    ensures var run := if base == -1 then None else Some(ZeroRun(base, len));
            tmp[..tp] == TextWith(words[..], run)
  {
    hide Groups, Hex, Progress, TextWith;
    ghost var ws := words[..];
    tp := 0;
    ProgressStart(ws, base, len);
    var i := 0;
    while i < 8
      invariant 0 <= i <= 8
      invariant tp <= 5 * i && tmp[..tp] == Progress(ws, base, len, i)
      invariant i < 7 || base == -1 || !EmbedsIPv4(ws, ZeroRun(base, len))
    {
      ProgressStep(ws, base, len, i);
      ProgressLength(ws, base, len, i);
      HexLength(ws[i]);
      if base != -1 && i >= base && i < base + len {
        if i == base {
          tp := Append(tmp, tp, ":");
        }
        i := i + 1;
        continue;
      }
      if i != 0 {
        tp := Append(tmp, tp, ":");
      }
      if i == 6 && base == 0 && (len == 6 || (len == 5 && words[5] == 0xffff)) {
        QuadFits(ws, len);
        QuadLength(src[12..]);
        var ok;
        ok, tp := InetNtop4(src[12..], tmp, tp, TMP_SIZE - tp);
        EmbeddedText(src, len, tmp[..tp]);
        return;
      }
      tp := Append(tmp, tp, Hex(words[i]));
      i := i + 1;
    }
    if base != -1 && base + len == 8 {
      tp := Append(tmp, tp, ":");
    }
    PlainText(ws, base, len, tmp[..tp]);
  }

  lemma ProgressStart(ws: seq<Word>, base: int, len: int)
    requires base == -1 || (0 <= base && 2 <= len && base + len <= |ws|)
    ensures Progress(ws, base, len, 0) == ""
  {
  }

  lemma EmbeddedText(src: seq<Byte>, len: nat, text: string)
    requires |src| == 16 && EmbedsIPv4(WordsOf(src), ZeroRun(0, len))
    requires text == Progress(WordsOf(src), 0, len, 6) + ":" + Quad(src[12..])
    ensures text == TextWith(WordsOf(src), Some(ZeroRun(0, len)))
  {
    var ws := WordsOf(src);
    BytesOfWordsOf(src[12..]);
    assert WordsOf(src[12..]) == ws[6..];
    if len == 5 {
      HexFfff();
      assert Groups(ws[5..6]) == Hex(ws[5]);
    }
  }

  lemma PlainText(ws: seq<Word>, base: int, len: int, text: string)
    requires |ws| == 8 && (base == -1 || (0 <= base && 2 <= len && base + len <= 8))
    requires base == -1 || !EmbedsIPv4(ws, ZeroRun(base, len))
    requires text == Progress(ws, base, len, 8) + if base != -1 && base + len == 8 then ":" else ""
    ensures text == TextWith(ws, if base == -1 then None else Some(ZeroRun(base, len)))
  {
    assert ws[..8] == ws;
    if base != -1 {
      assert ws[base + len..8] == ws[base + len..];
    }
  }

  /** The whole conversion: the presentation form, or ENOSPC. */
  method InetNtop6(src: seq<Byte>, dst: array<char>, size: nat) returns (ok: bool)
    requires |src| == 16 && size <= dst.Length
    modifies dst
    ensures ok == (|Text6(src)| + 1 <= size)
    ensures ok ==> dst[..] == Text6(src) + ['\0'] + old(dst[..])[|Text6(src)| + 1..]
    ensures !ok ==> dst[..] == old(dst[..])
    ensures |Text6(src)| + 1 <= TMP_SIZE
  {
    var words := PackWords(src);
    var base, len := FindBestRun(words);
    assert base != -1 ==> IsBestRun(words[..], ZeroRun(base, len));
    var tmp := new char[TMP_SIZE](_ => '\0');
    var tp := Format(src, words, base, len, tmp);
    tmp[tp] := '\0';
    tp := tp + 1;
    assert tmp[..tp] == Text6(src) + ['\0'];
    if tp > size {
      return false;
    }
    forall k | 0 <= k < tp {
      dst[k] := tmp[k];
    }
    return true;
  }

  // ----- the embedded IPv4 forms, from the bytes

  lemma RunAtStart(src: seq<Byte>, n: nat)
    requires |src| == 16 && 4 < n < 8 && WordsOf(src)[n] != 0
    requires AllZero(WordsOf(src), 0, n)
    ensures BestRun(WordsOf(src)) == Some(ZeroRun(0, n))
  {
    var ws := WordsOf(src);
    forall b: nat, m: nat | AllZero(ws, b, m) ensures m <= n && (m == n ==> 0 <= b) {
      assert ws[n] != 0;
    }
    BestRunUnique(ws, ZeroRun(0, n));
  }

  /** Ten zero bytes and two of all ones precede a mapped IPv4 address. */
  lemma TextOfMapped(src: seq<Byte>)
    requires |src| == 16 && src[..10] == Zeros(10) && src[10] == src[11] == 255
    ensures Text6(src) == "::ffff:" + Quad(src[12..])
  {
    var ws := WordsOf(src);
    forall k | 0 <= k < 5 ensures ws[k] == 0 {
      assert src[2 * k] == src[..10][2 * k] && src[2 * k + 1] == src[..10][2 * k + 1];
    }
    assert ws[5] == 0xffff;
    RunAtStart(src, 5);
    LastWords(src);
  }

  /** Twelve zero bytes precede a compatible one, whose first two bytes are not both zero. */
  lemma TextOfCompatible(src: seq<Byte>)
    requires |src| == 16 && src[..12] == Zeros(12) && (src[12] != 0 || src[13] != 0)
    ensures Text6(src) == "::" + Quad(src[12..])
  {
    var ws := WordsOf(src);
    forall k | 0 <= k < 6 ensures ws[k] == 0 {
      assert src[2 * k] == src[..12][2 * k] && src[2 * k + 1] == src[..12][2 * k + 1];
    }
    assert ws[6] == Pair(src[12], src[13]) != 0;
    RunAtStart(src, 6);
    LastWords(src);
  }

  lemma LastWords(src: seq<Byte>)
    requires |src| == 16
    ensures BytesOf(WordsOf(src)[6..]) == src[12..]
  {
    var tail := src[12..];
    assert WordsOf(src)[6..] == WordsOf(tail) by {
      assert forall i :: 0 <= i < 2 ==> tail[2 * i] == src[2 * (i + 6)] && tail[2 * i + 1] == src[2 * (i + 6) + 1];
    }
    BytesOfWordsOf(tail);
  }
}

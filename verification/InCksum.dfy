/** The Internet checksum (sections 1 and 2 of RFC 1071). */
module InCksum {
  import opened Common

  const M := 0xffff
  const TWO32 := 0x1_0000_0000

  // ----- what is to be computed

  /** One's complement addition: the carry comes back in at the low end. */
  function OnesAdd(a: Word, b: Word): Word {
    var sum: int := a;
    if sum + b > M then sum + b - M else sum + b
  }

  function OnesSum(ws: seq<Word>): Word {
    if ws == [] then 0 else OnesAdd(ws[0], OnesSum(ws[1..]))
  }

  function Complement(w: Word): Word { M - w }

  // ----- what is computed

  /** Two bytes as they lie in memory, read as a 16-bit integer. */
  function Join(first: Byte, second: Byte, little: bool): Word {
    var a: int, b: int := first, second;
    if little then b * 256 + a else a * 256 + b
  }

  /** Memory as 16-bit words; an odd byte is followed by a zero. */
  function Words(mem: seq<Byte>, little: bool): seq<Word> {
    if mem == [] then []
    else if |mem| == 1 then [Join(mem[0], 0, little)]
    else [Join(mem[0], mem[1], little)] + Words(mem[2..], little)
  }

  /** The two bytes of a 16-bit integer as they lie in memory. */
  function Stored(w: Word, little: bool): seq<Byte> {
    if little then [w % 256, w / 256] else [w / 256, w % 256]
  }

  function StoredAll(ws: seq<Word>, little: bool): seq<Byte> {
    if ws == [] then [] else Stored(ws[0], little) + StoredAll(ws[1..], little)
  }

  lemma StoredJoin(a: Byte, b: Byte, little: bool)
    ensures Stored(Join(a, b, little), little) == [a, b]
  {
  }

  /** Written back, the words are the memory, with a zero after an odd byte. */
  lemma {:induction false} WordsStored(mem: seq<Byte>, little: bool)
    ensures StoredAll(Words(mem, little), little) == mem + if |mem| % 2 == 1 then [0] else []
    decreases |mem|
  {
    hide Stored, Join;
    if |mem| == 1 {
      StoredJoin(mem[0], 0, little);
      assert Words(mem, little)[1..] == [];
    } else if |mem| > 1 {
      WordsStored(mem[2..], little);
      StoredJoin(mem[0], mem[1], little);
      assert Words(mem, little)[1..] == Words(mem[2..], little);
    }
  }

  function Sum(ws: seq<Word>): nat {
    if ws == [] then 0 else ws[0] + Sum(ws[1..])
  }

  lemma {:induction false} SumUpdate(ws: seq<Word>, p: nat, c: Word)
    requires p < |ws| && ws[p] == 0
    ensures Sum(ws[p := c]) == Sum(ws) + c
  {
    if p == 0 {
      assert ws[0 := c][1..] == ws[1..];
    } else {
      assert ws[p := c][1..] == ws[1..][p - 1 := c];
      SumUpdate(ws[1..], p - 1, c);
    }
  }

  /** The carries out of the low 16 bits added back twice, in 32-bit arithmetic. */
  function Fold(sum: nat): Word
    requires sum < TWO32
  {
    var s1 := sum / 0x10000 + sum % 0x10000;
    (s1 + s1 / 0x10000) % 0x10000
  }

  function Cksum(ws: seq<Word>): Word {
    Complement(Fold(Reduced(Sum(ws))))
  }

  /** `in_cksum` over `len` bytes, on a machine of either byte order. */
  method ComputeCksum(mem: seq<Byte>, little: bool) returns (answer: Word)
    ensures answer == Cksum(Words(mem, little))
  {
    hide Sum, Words, Join, Fold, Canon;
    var nleft, w, sum: nat := |mem|, 0, 0;
    ghost var all, exact: nat := Sum(Words(mem, little)), 0;
    assert mem[0..] == mem;
    while nleft > 1
      invariant 0 <= nleft && w + nleft == |mem|
      invariant exact + Sum(Words(mem[w..], little)) == all && sum == Reduced(exact)
      decreases nleft
    {
      var word := Join(mem[w], mem[w + 1], little);
      SumStep(mem, w, little);
      sum := Add32(sum, word, exact);
      exact := exact + word;
      w, nleft := w + 2, nleft - 2;
    }
    SumRest(mem, w, little);
    if nleft == 1 {
      sum := Add32(sum, Join(mem[w], 0, little), exact);
    }
    FoldIsCanon(sum);
    answer := FoldSum(sum);
  }

  /** What a 32-bit variable keeps of `n`. */
  function Reduced(n: nat): nat { n % TWO32 }

  /** `sum += word` in 32 bits, where `sum` stands for `exact`. */
  method Add32(sum: nat, word: Word, ghost exact: nat) returns (r: nat)
    requires sum == Reduced(exact)
    ensures r == Reduced(exact + word) < TWO32
  {
    Wrap(exact, word);
    r := (sum + word) % TWO32;
  }

  /** The end of `in_cksum`: fold twice, complement, truncate. */
  method FoldSum(acc: nat) returns (answer: Word)
    requires acc < TWO32
    ensures answer == Complement(Canon(acc))
  {
    FoldIsCanon(acc);
    var sum := acc;
    sum := sum / 0x10000 + sum % 0x10000;
    sum := sum + sum / 0x10000;
    answer := M - sum % 0x10000;
  }

  lemma SumStep(mem: seq<Byte>, w: nat, little: bool)
    requires w + 1 < |mem|
    ensures Sum(Words(mem[w..], little)) == Join(mem[w], mem[w + 1], little) + Sum(Words(mem[w + 2..], little))
  {
    assert mem[w..][2..] == mem[w + 2..];
    var ws := Words(mem[w..], little);
    assert ws[1..] == Words(mem[w + 2..], little);
  }

  lemma SumRest(mem: seq<Byte>, w: nat, little: bool)
    requires w <= |mem| <= w + 1
    ensures Sum(Words(mem[w..], little)) == if w < |mem| then Join(mem[w], 0, little) else 0
  {
    if w < |mem| {
      var ws := Words(mem[w..], little);
      assert ws == [Join(mem[w], 0, little)] && ws[1..] == [];
    }
  }

  lemma Wrap(a: nat, b: nat)
    ensures (a % TWO32 + b) % TWO32 == (a + b) % TWO32
  {
    assert a == a / TWO32 * TWO32 + a % TWO32;
  }

  // ----- residues modulo 2^16 - 1

  /** The value from 1 to 0xffff congruent to `n`, and 0 for 0. */
  function Canon(n: nat): Word {
    if n == 0 then 0 else (n - 1) % M + 1
  }

  lemma CanonUnique(n: nat, x: int, k: int)
    requires 1 <= x <= M && n == x + M * k && 0 < n
    ensures Canon(n) == x
  {
    assert n - 1 == M * k + (x - 1);
    ModUnique(n - 1, M, k, x - 1);
  }

  lemma CanonDecomposes(n: nat)
    requires 0 < n
    ensures n == Canon(n) + M * ((n - 1) / M)
  {
  }

  /** Two folds of any 32-bit sum leave the canonical residue. */
  lemma FoldIsCanon(sum: nat)
    requires sum < TWO32
    ensures Fold(sum) == Canon(sum)
  {
    var q, r := sum / 0x10000, sum % 0x10000;
    var s1 := q + r;
    assert sum == s1 + M * q;
    if 0 < s1 <= M {
      CanonUnique(sum, s1, q);
    } else if M < s1 {
      assert s1 / 0x10000 == 1;
      CanonUnique(sum, s1 - M, q + 1);
    }
  }

  lemma {:induction false} OnesSumIsCanon(ws: seq<Word>)
    ensures OnesSum(ws) == Canon(Sum(ws))
  {
    if ws != [] {
      var w, rest := ws[0], Sum(ws[1..]);
      OnesSumIsCanon(ws[1..]);
      if rest == 0 {
        if w > 0 { CanonUnique(w, w, 0); }
      } else {
        CanonDecomposes(rest);
        var c, k := Canon(rest), (rest - 1) / M;
        if w + c > M { CanonUnique(w + rest, w + c - M, k + 1); } else { CanonUnique(w + rest, w + c, k); }
      }
    }
  }

  // ----- when the 32-bit accumulator is wide enough

  lemma {:induction false} SumBound(ws: seq<Word>)
    ensures Sum(ws) <= M * |ws|
  {
    if ws != [] {
      SumBound(ws[1..]);
    }
  }

  /** Up to 65537 words the accumulator cannot overflow. */
  lemma NoOverflow(ws: seq<Word>)
    requires |ws| <= 65537
    ensures Sum(ws) < TWO32
  {
    SumBound(ws);
  }

  /** A lost carry out of 32 bits changes the result. */
  lemma OverflowShows(total: nat)
    requires TWO32 <= total < 16384 * TWO32
    ensures Canon(total) != Canon(total % TWO32)
  {
    var k, m := total / TWO32, total % TWO32;
    assert 1 <= k < 16384 && total == k * TWO32 + m;
    if m != 0 {
      CanonDecomposes(m);
      var c, j := Canon(m), (m - 1) / M;
      assert total == (c + k) + M * (j + k * 65537);
      if c + k <= M {
        CanonUnique(total, c + k, j + k * 65537);
      } else {
        CanonUnique(total, c + k - M, j + k * 65537 + 1);
      }
    }
  }

  lemma WrapShows(total: nat)
    requires total < 16384 * TWO32
    ensures Canon(total % TWO32) == Canon(total) <==> total < TWO32
  {
    if total < TWO32 {
      assert total % TWO32 == total;
    } else {
      OverflowShows(total);
    }
  }

  lemma CksumIsCanon(ws: seq<Word>)
    ensures Cksum(ws) == M - Canon(Sum(ws) % TWO32)
  {
    FoldIsCanon(Sum(ws) % TWO32);
  }

  /**
   For any length that an `int` can hold, the result is the complement of the
   one's complement sum if and only if the plain sum fits in 32 bits.
   */
  lemma CorrectExactly(ws: seq<Word>)
    requires |ws| <= 0x4000_0000
    ensures Cksum(ws) == Complement(OnesSum(ws)) <==> Sum(ws) < TWO32
  {
    hide Cksum, Canon, Sum, OnesSum;
    OnesSumIsCanon(ws);
    CksumIsCanon(ws);
    SumBound(ws);
    WrapShows(Sum(ws));
  }

  lemma {:induction false} SumConstant(n: nat, w: Word)
    ensures Sum(seq(n, _ => w)) == n * w
  {
    if n != 0 {
      SumConstant(n - 1, w);
      assert seq(n, _ => w)[1..] == seq(n - 1, _ => w);
    }
  }

  /** One word more than `NoOverflow` allows, and words of all ones go wrong. */
  lemma OverflowFails()
    ensures var ws: seq<Word> := seq(65538, _ => M); Cksum(ws) != Complement(OnesSum(ws))
  {
    SumConstant(65538, M);
    CorrectExactly(seq(65538, _ => M));
  }

  /** The checksum of every buffer of `n` words is right if and only if `n` is at most 65537. */
  lemma SafeLengths(n: nat)
    requires n <= 0x4000_0000
    ensures (forall ws: seq<Word> :: |ws| == n ==> Cksum(ws) == Complement(OnesSum(ws))) <==> n <= 65537
  {
    hide Cksum, OnesSum, Sum, Complement;
    forall ws: seq<Word> | |ws| == n && n <= 65537 ensures Cksum(ws) == Complement(OnesSum(ws)) {
      NoOverflow(ws);
      CorrectExactly(ws);
    }
    var ones: seq<Word> := seq(n, _ => M);
    SumConstant(n, M);
    CorrectExactly(ones);
  }

  // ----- what the checksum is for

  lemma ComplementCancels(sum: nat)
    ensures Canon(sum + (M - Canon(sum))) == M
  {
    if sum == 0 {
      CanonUnique(M, M, 0);
    } else {
      CanonDecomposes(sum);
      CanonUnique(sum + (M - Canon(sum)), M, (sum - 1) / M);
    }
  }

  lemma SmallMod(n: nat)
    requires n < TWO32
    ensures n % TWO32 == n
  {
  }

  /** The complement fills the sum up to a multiple of 0xffff, which 32 bits can hold. */
  lemma ComplementFits(x: nat)
    requires x < TWO32
    ensures x + (M - Canon(x)) < TWO32
  {
    if x != 0 {
      CanonDecomposes(x);
      assert (x - 1) / M <= 65536;
    }
  }

  /**
   With the checksum stored in the word that was zero, recomputation gives 0,
   whether or not the sum overflowed.
   */
  lemma StoredChecksumVerifies(ws: seq<Word>, p: nat)
    requires p < |ws| && ws[p] == 0
    ensures Cksum(ws[p := Cksum(ws)]) == 0
  {
    hide Cksum, Canon, Sum;
    var c, x := Cksum(ws), Sum(ws) % TWO32;
    CksumIsCanon(ws);
    CksumIsCanon(ws[p := c]);
    SumUpdate(ws, p, c);
    Wrap(Sum(ws), c);
    ComplementFits(x);
    SmallMod(x + c);
    ComplementCancels(x);
  }

  function Swap(w: Word): Word { w % 256 * 256 + w / 256 }

  function SwapAll(ws: seq<Word>): (r: seq<Word>)
    ensures |r| == |ws|
  {
    if ws == [] then [] else [Swap(ws[0])] + SwapAll(ws[1..])
  }

  function HighSum(ws: seq<Word>): nat {
    if ws == [] then 0 else ws[0] / 256 + HighSum(ws[1..])
  }

  /** Swapping bytes multiplies by 256 modulo 2^16 - 1. */
  lemma {:induction false} SwapScales(ws: seq<Word>)
    ensures Sum(SwapAll(ws)) + M * HighSum(ws) == 256 * Sum(ws)
  {
    if ws != [] {
      SwapScales(ws[1..]);
      assert SwapAll(ws)[1..] == SwapAll(ws[1..]);
      var w: int := ws[0];
      assert Swap(w) + M * (w / 256) == 256 * w;
    }
  }

  lemma {:induction false} SwapZero(ws: seq<Word>)
    ensures Sum(SwapAll(ws)) == 0 <==> Sum(ws) == 0
  {
    if ws != [] {
      SwapZero(ws[1..]);
      assert SwapAll(ws)[1..] == SwapAll(ws[1..]);
      assert Swap(ws[0]) == 0 <==> ws[0] == 0;
    }
  }

  lemma SwapCanon(n: nat, n': nat, h: int)
    requires n' + M * h == 256 * n && (n' == 0 <==> n == 0)
    ensures Swap(Canon(n)) == Canon(n')
  {
    if n != 0 {
      CanonDecomposes(n);
      var x: int, k := Canon(n), (n - 1) / M;
      assert Swap(x) + M * (x / 256) == 256 * x;
      assert n' == Swap(x) + M * (x / 256 + 256 * k - h);
      CanonUnique(n', Swap(x), x / 256 + 256 * k - h);
    }
  }

  lemma SwapComplement(w: Word)
    ensures Swap(Complement(w)) == Complement(Swap(w))
  {
    var hi, lo := w / 256, w % 256;
    assert Complement(w) == (255 - hi) * 256 + (255 - lo);
  }

  /** The remainders scale by 256 up to the carries that were lost. */
  lemma LostCarries(n: nat, n': nat, h: nat) returns (k: int)
    requires n' + M * h == 256 * n
    ensures n' % TWO32 == 256 * (n % TWO32) + (256 * (n / TWO32) - n' / TWO32) + M * k
  {
    var q, q' := n / TWO32, n' / TWO32;
    k := 65537 * (256 * q - q') - h;
    assert n == q * TWO32 + n % TWO32 && n' == q' * TWO32 + n' % TWO32;
    assert TWO32 == M * 65537 + 1;
  }

  lemma {:induction false} SameResidue(x: nat, x': nat)
    requires Canon(x') == Swap(Canon(x))
    ensures (x' - 256 * x) % M == 0 && (x == 0 <==> x' == 0)
  {
    if x != 0 {
      CanonDecomposes(x);
      var y: int, k := Canon(x), (x - 1) / M;
      assert Swap(y) + M * (y / 256) == 256 * y;
      assert x' != 0;
      CanonDecomposes(x');
      var k' := (x' - 1) / M;
      ModUnique(x' - 256 * x, M, k' - y / 256 - 256 * k, 0);
    }
  }

  /**
   The checksum of byte-swapped words is the byte-swapped checksum if and only
   if the carries lost out of 32 bits differ by the factor 256 as well, modulo
   2^16 - 1, and what is left is zero for both or for neither.
   */
  lemma ByteOrderExactly(ws: seq<Word>)
    ensures var n, n' := Sum(ws), Sum(SwapAll(ws));
            Cksum(SwapAll(ws)) == Swap(Cksum(ws)) <==>
              && (256 * (n / TWO32) - n' / TWO32) % M == 0
              && (n % TWO32 == 0 <==> n' % TWO32 == 0)
  {
    var n, n' := Sum(ws), Sum(SwapAll(ws));
    SwapScales(ws);
    hide Cksum, Canon, Sum, SwapAll, Swap, HighSum;
    var x, x', d := n % TWO32, n' % TWO32, 256 * (n / TWO32) - n' / TWO32;
    CksumIsCanon(ws);
    CksumIsCanon(SwapAll(ws));
    SwapComplement(Canon(x));
    var k := LostCarries(n, n', HighSum(ws));
    if Canon(x') == Swap(Canon(x)) {
      SameResidue(x, x');
      ModUnique(d, M, (x' - 256 * x) / M - k, 0);
    } else if d % M == 0 && (x == 0 <==> x' == 0) {
      SwapCanon(x, x', -(d / M) - k);
    }
  }

  /** In particular whenever neither sum overflows. */
  lemma ByteOrderIndependent(ws: seq<Word>)
    requires Sum(ws) < TWO32 && Sum(SwapAll(ws)) < TWO32
    ensures Cksum(SwapAll(ws)) == Swap(Cksum(ws))
  {
    hide Cksum, Sum, SwapAll, Swap;
    SwapZero(ws);
    ByteOrderExactly(ws);
  }

  lemma {:induction false} SwapAllConstant(n: nat)
    ensures SwapAll(seq(n, _ => M)) == seq(n, _ => M)
  {
    if n != 0 {
      SwapAllConstant(n - 1);
      assert seq(n, _ => M)[1..] == seq(n - 1, _ => M);
    }
  }

  /** Words of all ones, one more than `NoOverflow` allows, are their own swap; their checksum is not. */
  lemma ByteOrderFails()
    ensures var ws: seq<Word> := seq(65538, _ => M); Cksum(SwapAll(ws)) != Swap(Cksum(ws))
  {
    hide Cksum, Sum, SwapAll, Swap;
    SumConstant(65538, M);
    SwapAllConstant(65538);
    ByteOrderExactly(seq(65538, _ => M));
  }

  lemma {:induction false} WordsSwap(mem: seq<Byte>)
    ensures Words(mem, true) == SwapAll(Words(mem, false))
    decreases |mem|
  {
    if |mem| == 1 {
      assert SwapAll([Join(mem[0], 0, false)]) == [Swap(Join(mem[0], 0, false))];
    } else if |mem| > 1 {
      WordsSwap(mem[2..]);
      assert Words(mem, false)[1..] == Words(mem[2..], false);
    }
  }

  /** So machines of either byte order store the same two bytes. */
  lemma SameBytesInMemory(mem: seq<Byte>)
    requires Sum(Words(mem, false)) < TWO32 && Sum(Words(mem, true)) < TWO32
    ensures Cksum(Words(mem, true)) == Swap(Cksum(Words(mem, false)))
  {
    WordsSwap(mem);
    ByteOrderIndependent(Words(mem, false));
  }

  /** Up to 131074 bytes, whatever they are. */
  lemma ShortSameBytes(mem: seq<Byte>)
    requires |mem| <= 2 * 65537
    ensures Cksum(Words(mem, true)) == Swap(Cksum(Words(mem, false)))
  {
    WordsLength(mem, false);
    WordsLength(mem, true);
    NoOverflow(Words(mem, false));
    NoOverflow(Words(mem, true));
    SameBytesInMemory(mem);
  }

  lemma {:induction false} WordsLength(mem: seq<Byte>, little: bool)
    ensures |Words(mem, little)| == (|mem| + 1) / 2
    decreases |mem|
  {
    if |mem| > 1 {
      WordsLength(mem[2..], little);
    }
  }
}

/** Types and small functions shared by the models. */
module Common {
  datatype Option<+T> = None | Some(value: T)

  /** An unsigned 8-bit quantity (`u_char`). */
  type Byte = x: int | 0 <= x < 0x100

  /** An unsigned 16-bit quantity. */
  type Word = x: int | 0 <= x < 0x1_0000

  /** `n` zero bytes. */
  function Zeros(n: nat): (z: seq<Byte>)
    ensures |z| == n && forall k :: 0 <= k < n ==> z[k] == 0
  {
    seq(n, _ => 0)
  }

  /** The sum of `f` over a sequence; for a 0/1 function, a count. */
  function Total<T>(s: seq<T>, f: T -> nat): nat {
    if s == [] then 0 else f(s[0]) + Total(s[1..], f)
  }

  lemma {:induction false} TotalUpdate<T>(s: seq<T>, i: nat, x: T, f: T -> nat)
    requires i < |s|
    ensures Total(s[i := x], f) + f(s[i]) == Total(s, f) + f(x)
  {
    if i == 0 {
      assert s[0 := x][1..] == s[1..];
    } else {
      assert s[i := x][1..] == s[1..][i - 1 := x];
      TotalUpdate(s[1..], i - 1, x, f);
    }
  }

  /** A total is positive exactly when some summand is. */
  lemma {:induction false} TotalPositive<T>(s: seq<T>, f: T -> nat)
    ensures 0 < Total(s, f) <==> exists i :: 0 <= i < |s| && 0 < f(s[i])
  {
    if s != [] {
      TotalPositive(s[1..], f);
      if 0 < Total(s[1..], f) {
        var i :| 0 <= i < |s[1..]| && 0 < f(s[1..][i]);
        assert 0 < f(s[i + 1]);
      }
      if i :| 0 <= i < |s| && 0 < f(s[i]) {
        if i != 0 { assert s[i] == s[1..][i - 1]; }
      }
    }
  }

  /** If every summand is `c`, the total is `c` for each element. */
  lemma {:induction false} TotalConstant<T>(s: seq<T>, f: T -> nat, c: nat)
    requires forall i :: 0 <= i < |s| ==> f(s[i]) == c
    ensures Total(s, f) == c * |s|
  {
    if s != [] {
      TotalConstant(s[1..], f, c);
    }
  }

  /** The next index of a ring of `size` slots. */
  function Succ(i: int, size: nat): int { if i + 1 >= size then 0 else i + 1 }

  lemma ModUnique(a: int, size: nat, q: int, r: int)
    requires 0 <= r < size && a == size * q + r
    ensures a % size == r
  {
    var d := a / size - q;
    assert size * d == r - a % size;
  }

  /** Counting in a ring is counting modulo its size. */
  lemma ModSucc(a: nat, size: nat)
    requires 0 < size
    ensures (a + 1) % size == Succ(a % size, size)
  {
    var q, r := a / size, a % size;
    if r + 1 == size {
      ModUnique(a + 1, size, q + 1, 0);
    } else {
      ModUnique(a + 1, size, q, r + 1);
    }
  }

  /** Fewer than `size` apart, two counts have different slots; exactly `size` apart, the same. */
  lemma ModDistinct(a: nat, b: nat, size: nat)
    requires 0 < size && a <= b <= a + size
    ensures a % size == b % size <==> a == b || b == a + size
  {
    var q, r := a / size, a % size;
    if r + (b - a) < size {
      ModUnique(b, size, q, r + (b - a));
    } else if r + (b - a) < 2 * size {
      ModUnique(b, size, q + 1, r + (b - a) - size);
    }
  }

  function Min(a: int, b: int): (m: int)
    ensures m <= a && m <= b && (m == a || m == b)
  {
    if a < b then a else b
  }

  function Max(a: int, b: int): (m: int)
    ensures a <= m && b <= m && (m == a || m == b)
  {
    if a > b then a else b
  }

  /** The character at index `i` of a C string, which ends in a NUL. */
  function CharAt(s: string, i: nat): char {
    if i < |s| then s[i] else '\0'
  }
}

/** Finite runs of a transition system, and induction over them. */
module Runs {
  ghost predicate IsRun<S(!new)>(init: S -> bool, next: (S, S) -> bool, run: seq<S>) {
    && 0 < |run|
    && init(run[0])
    && forall i :: 0 < i < |run| ==> next(run[i - 1], run[i])
  }

  /** An inductive invariant holds in every state of every run. */
  lemma {:induction false} Induction<S(!new)>(
    init: S -> bool, next: (S, S) -> bool, inv: S -> bool, run: seq<S>, k: nat)
    requires IsRun(init, next, run) && k < |run|
    requires forall s :: init(s) ==> inv(s)
    requires forall s, s' :: inv(s) && next(s, s') ==> inv(s')
    ensures inv(run[k])
  {
    if k != 0 {
      Induction(init, next, inv, run, k - 1);
      assert next(run[k - 1], run[k]);
    }
  }
}

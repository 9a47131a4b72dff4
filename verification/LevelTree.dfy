/** The binary tree that is filled and printed level by level. */
module LevelTree {
  class Tree {
    const val: int
    var lchild: Tree?
    var rchild: Tree?
    constructor (v: int)
      ensures val == v && lchild == null && rchild == null
    {
      val := v;
      lchild, rchild := null, null;
    }
  }

  ghost function At(ns: seq<Tree>, i: nat): Tree? {
    if i < |ns| then ns[i] else null
  }

  /**
   `ns` are the nodes of a complete tree in level order: node `i` has nodes
   `2i + 1` and `2i + 2` as its children, as far as there are any.
   */
  ghost predicate Complete(root: Tree?, ns: seq<Tree>)
    reads ns
  {
    && root == At(ns, 0)
    && (forall i, j :: 0 <= i < j < |ns| ==> ns[i] != ns[j])
    && (forall i {:trigger ns[i].lchild} :: 0 <= i < |ns| ==> ns[i].lchild == At(ns, 2 * i + 1))
    && (forall i {:trigger ns[i].rchild} :: 0 <= i < |ns| ==> ns[i].rchild == At(ns, 2 * i + 2))
  }

  ghost function Values(ns: seq<Tree>): (vs: seq<int>)
    ensures |vs| == |ns| && forall i :: 0 <= i < |ns| ==> vs[i] == ns[i].val
  {
    seq(|ns|, i requires 0 <= i < |ns| => ns[i].val)
  }

  /** The search finds the first node without a child, which is the parent of the next node. */
  method AddTree(root: Tree, p: Tree, ghost ns: seq<Tree>)
    requires Complete(root, ns) && ns != []
    requires p !in ns && p.lchild == null && p.rchild == null
    modifies ns
    ensures Complete(root, ns + [p])
  {
    var q := [root];
    var tem := q[0];
    ghost var i := 0;
    ghost var n := |ns|;
    while q != []
      invariant 0 <= i < 2 * i + 1 <= n && tem == ns[i] && q == ns[i..2 * i + 1]
      invariant Complete(root, ns)
      decreases n - i
    {
      q := q[1..];
      if tem.lchild == null {
        tem.lchild := p;
        Grown(root, ns, p, i);
        return;
      }
      if tem.rchild == null {
        tem.rchild := p;
        Grown(root, ns, p, i);
        return;
      }
      q := q + [tem.lchild];
      q := q + [tem.rchild];
      tem := q[0];
      i := i + 1;
      assert q == ns[i..2 * i + 1];
    }
  }

  /** The tree is complete again once the last node hangs below its parent. */
  lemma Grown(root: Tree, ns: seq<Tree>, p: Tree, i: nat)
    requires i < |ns| && (2 * i + 1 == |ns| || 2 * i + 2 == |ns|)
    requires root == ns[0] && p !in ns && p.lchild == null && p.rchild == null
    requires forall i, j :: 0 <= i < j < |ns| ==> ns[i] != ns[j]
    requires forall k {:trigger ns[k].lchild} :: 0 <= k < |ns| ==> ns[k].lchild == At(ns + [p], 2 * k + 1)
    requires forall k {:trigger ns[k].rchild} :: 0 <= k < |ns| ==> ns[k].rchild == At(ns + [p], 2 * k + 2)
    ensures Complete(root, ns + [p])
  {
  }

  method Print(root: Tree?, ghost ns: seq<Tree>) returns (out: seq<int>)
    requires Complete(root, ns)
    ensures out == Values(ns)
  {
    out := [];
    if root == null {
      return;
    }
    var q: seq<Tree> := [root];
    ghost var n, i, hi := |ns|, 0, 1;
    while q != []
      invariant 0 <= i <= hi <= n && |out| == i && q == ns[i..hi]
      invariant hi == if 2 * i + 1 < n then 2 * i + 1 else n
      invariant forall k :: 0 <= k < i ==> out[k] == ns[k].val
      decreases n - i
    {
      var tem := q[0];
      q := q[1..];
      out := out + [tem.val];
      assert tem == ns[i] && q == ns[i + 1..hi];
      if tem.lchild != null {
        q := q + [tem.lchild];
        hi := hi + 1;
      }
      if tem.rchild != null {
        q := q + [tem.rchild];
        hi := hi + 1;
      }
      i := i + 1;
    }
  }

  /** The input up to the 0 that ends it. */
  function UpToZero(input: seq<int>): seq<int> {
    if input == [] || input[0] == 0 then [] else [input[0]] + UpToZero(input[1..])
  }

  /** The longest prefix without a zero. */
  lemma {:induction false} UpToZeroExactly(input: seq<int>)
    ensures UpToZero(input) <= input && 0 !in UpToZero(input)
    ensures |UpToZero(input)| < |input| ==> input[|UpToZero(input)|] == 0
  {
    if input != [] && input[0] != 0 {
      UpToZeroExactly(input[1..]);
    }
  }

  lemma NextValue(ns: seq<Tree>, node: Tree, input: seq<int>, k: nat)
    requires k < |input| && input[k] != 0 && node.val == input[k]
    ensures Values(ns) + UpToZero(input[k..]) == Values(ns + [node]) + UpToZero(input[k + 1..])
  {
    assert input[k..][1..] == input[k + 1..];
    assert Values(ns + [node]) == Values(ns) + [input[k]];
  }

  lemma NoMoreValues(ns: seq<Tree>, input: seq<int>, k: nat)
    requires k <= |input| && (k == |input| || input[k] == 0)
    ensures Values(ns) + UpToZero(input[k..]) == Values(ns)
  {
  }

  /** Reads values, builds the tree, prints it: the output is the input. */
  method BuildAndPrint(input: seq<int>) returns (out: seq<int>)
    ensures out == UpToZero(input)
  {
    var root: Tree? := null;
    ghost var ns: seq<Tree> := [];
    var k := 0;
    assert Values(ns) + UpToZero(input[0..]) == UpToZero(input) by { assert input[0..] == input; }
    hide UpToZero, Values;
    while k < |input| && input[k] != 0
      invariant 0 <= k <= |input|
      invariant Complete(root, ns) && fresh(ns)
      invariant UpToZero(input) == Values(ns) + UpToZero(input[k..])
    {
      var node := new Tree(input[k]);
      if root == null {
        root := node;
      } else {
        AddTree(root, node, ns);
      }
      NextValue(ns, node, input, k);
      ns := ns + [node];
      k := k + 1;
    }
    NoMoreValues(ns, input, k);
    out := Print(root, ns);
  }
}

/**
 The preforked server that passes descriptors: the parent accepts every
 connection and hands it over a stream pipe to a child that it believes free.
 */
module Prefork {
  import opened Common
  import opened Runs

  type Conn = nat

  /** Where a child is in its loop. */
  datatype ChildPc = Receiving | Serving(conn: Conn) | Reporting

  /**
   One child: the parent's record of it (`status`, `count`), the two
   directions of its pipe, and the child itself. `done` are the connections
   it has closed.
   */
  datatype Child = Child(status: int, count: nat, inbox: seq<Conn>, ready: nat, pc: ChildPc, done: seq<Conn>)

  /** What `select` reported: the listening socket, and pipes of children. */
  datatype ParentPc =
    | Top
    | Check(listen: bool, pipes: set<nat>, nsel: int)
    | Scan(i: nat, pipes: set<nat>, nsel: int)
    | NoAvailableChildren
    | ChildTerminated

  /** `owner[c]` is the child to which connection `c` was given. */
  datatype State = State(navail: int, kids: seq<Child>, pc: ParentPc, owner: seq<nat>)

  function Free(c: Child): nat { if c.status == 0 then 1 else 0 }
  function Count(c: Child): nat { c.count }

  /** The first child marked free, or the number of children. */
  function FirstFree(kids: seq<Child>): (i: nat)
    ensures i <= |kids|
    ensures i < |kids| ==> kids[i].status == 0
    ensures forall k :: 0 <= k < i ==> kids[k].status != 0
  {
    if kids == [] || kids[0].status == 0 then 0 else 1 + FirstFree(kids[1..])
  }

  /** The search loop of the parent. */
  method FindAvailable(kids: seq<Child>) returns (i: nat)
    ensures i == FirstFree(kids)
    ensures i == |kids| <==> Total(kids, Free) == 0
  {
    i := 0;
    while i < |kids|
      invariant i <= |kids| && forall k :: 0 <= k < i ==> kids[k].status != 0
    {
      if kids[i].status == 0 {
        break;
      }
      i := i + 1;
    }
    TotalPositive(kids, Free);
    if i < |kids| {
      assert 0 < Free(kids[i]);
    }
  }

  // ----- the transition system

  ghost predicate Init(s: State) {
    && s.pc == Top && s.owner == []
    && s.navail == |s.kids|
    && forall i :: 0 <= i < |s.kids| ==> s.kids[i] == Child(0, 0, [], 0, Receiving, [])
  }

  /** `select` returns a nonempty part of what is ready; no accept without a free child. */
  ghost predicate Select(s: State, s': State) {
    && s.pc == Top && s'.pc.Check?
    && (s'.pc.listen ==> s.navail > 0)
    && (forall i :: i in s'.pc.pipes ==> i < |s.kids| && s.kids[i].ready > 0)
    && s'.pc.nsel == |s'.pc.pipes| + (if s'.pc.listen then 1 else 0) > 0
    && s' == s.(pc := s'.pc)
  }

  function AfterAccept(s: State): State
    requires s.pc.Check? && s.pc.listen
  {
    var i := FirstFree(s.kids);
    if i == |s.kids| then s.(pc := NoAvailableChildren)
    else
      var k := s.kids[i];
      State(s.navail - 1,
            s.kids[i := k.(status := 1, count := k.count + 1, inbox := k.inbox + [|s.owner|])],
            if s.pc.nsel - 1 == 0 then Top else Scan(0, s.pc.pipes, s.pc.nsel - 1),
            s.owner + [i])
  }

  ghost predicate Accept(s: State, s': State) {
    && s.pc.Check?
    && s' == if s.pc.listen then AfterAccept(s) else s.(pc := Scan(0, s.pc.pipes, s.pc.nsel))
  }

  function AfterScan(s: State): State
    requires s.pc.Scan?
  {
    var Scan(i, pipes, nsel) := s.pc;
    if i >= |s.kids| then s.(pc := Top)
    else if i !in pipes then s.(pc := Scan(i + 1, pipes, nsel))
    else if s.kids[i].ready == 0 then s.(pc := ChildTerminated)
    else
      s.(navail := s.navail + 1,
         kids := s.kids[i := s.kids[i].(status := 0, ready := s.kids[i].ready - 1)],
         pc := if nsel - 1 == 0 then Top else Scan(i + 1, pipes, nsel - 1))
  }

  ghost predicate ScanChild(s: State, s': State) {
    s.pc.Scan? && s' == AfterScan(s)
  }

  /** A child receives a descriptor, closes it, or reports that it is ready again. */
  function AfterChild(k: Child): Child {
    match k.pc
    case Receiving => if k.inbox == [] then k else k.(pc := Serving(k.inbox[0]), inbox := k.inbox[1..])
    case Serving(c) => k.(pc := Reporting, done := k.done + [c])
    case Reporting => k.(pc := Receiving, ready := k.ready + 1)
  }

  ghost predicate ChildStep(s: State, s': State, i: nat) {
    i < |s.kids| && s' == s.(kids := s.kids[i := AfterChild(s.kids[i])])
  }

  ghost predicate Next(s: State, s': State) {
    Select(s, s') || Accept(s, s') || ScanChild(s, s') || exists i: nat :: ChildStep(s, s', i)
  }

  // ----- the invariant

  /** The connections in hand or ahead of a child, oldest first. */
  function Pending(k: Child): seq<Conn> {
    (if k.pc.Serving? then [k.pc.conn] else []) + k.inbox
  }

  /** The connections that the parent gave to child `i`, in order. */
  function Owned(owner: seq<nat>, i: nat): seq<Conn> {
    if owner == [] then []
    else
      var n := |owner| - 1;
      Owned(owner[..n], i) + if owner[n] == i then [n] else []
  }

  /** A child is busy for exactly one reason at a time. */
  ghost predicate ChildInv(k: Child, owned: seq<Conn>) {
    && 0 <= k.status <= 1
    && |k.inbox| + (if k.pc == Receiving then 0 else 1) + k.ready == k.status
    && k.done + Pending(k) == owned
    && k.count == |owned|
  }

  /** The reported pipes that a scan has still to visit. */
  ghost function From(pipes: set<nat>, i: nat): set<nat> {
    set p | p in pipes && i <= p
  }

  lemma FromStep(pipes: set<nat>, i: nat)
    ensures From(pipes, 0) == pipes
    ensures |From(pipes, i)| == |From(pipes, i + 1)| + if i in pipes then 1 else 0
  {
    assert From(pipes, 0) == pipes;
    if i in pipes {
      assert From(pipes, i) == From(pipes, i + 1) + {i};
    } else {
      assert From(pipes, i) == From(pipes, i + 1);
    }
  }

  ghost predicate ParentInv(s: State) {
    match s.pc
    case Top => true
    case Check(listen, pipes, nsel) =>
      && (listen ==> s.navail > 0)
      && nsel == |pipes| + (if listen then 1 else 0) > 0
      && forall i :: i in pipes ==> i < |s.kids| && s.kids[i].ready > 0
    case Scan(i, pipes, nsel) =>
      && i < |s.kids| && nsel > 0
      && nsel == |From(pipes, i)|
      && forall p :: p in pipes && i <= p ==> p < |s.kids| && s.kids[p].ready > 0
    case _ => false
  }

  ghost predicate Inv(s: State) {
    && s.navail == Total(s.kids, Free)
    && Total(s.kids, Count) == |s.owner|
    && (forall c :: 0 <= c < |s.owner| ==> s.owner[c] < |s.kids|)
    && (forall i :: 0 <= i < |s.kids| ==> ChildInv(s.kids[i], Owned(s.owner, i)))
    && ParentInv(s)
  }

  lemma InitInv(s: State)
    requires Init(s)
    ensures Inv(s)
  {
    TotalConstant(s.kids, Free, 1);
    TotalConstant(s.kids, Count, 0);
  }

  // What each step does to the child it concerns.

  lemma GiveConn(k: Child, owned: seq<Conn>, c: Conn)
    requires ChildInv(k, owned) && k.status == 0
    ensures ChildInv(k.(status := 1, count := k.count + 1, inbox := k.inbox + [c]), owned + [c])
  {
    assert k.done + (k.inbox + [c]) == owned + [c];
  }

  lemma ReadReady(k: Child, owned: seq<Conn>)
    requires ChildInv(k, owned) && k.ready > 0
    ensures k.status == 1 && ChildInv(k.(status := 0, ready := k.ready - 1), owned)
  {
  }

  lemma ChildMoves(k: Child, owned: seq<Conn>)
    requires ChildInv(k, owned)
    ensures ChildInv(AfterChild(k), owned)
    ensures AfterChild(k).status == k.status && AfterChild(k).count == k.count && AfterChild(k).ready >= k.ready
  {
    var k' := AfterChild(k);
    assert k'.done + Pending(k') == k.done + Pending(k);
  }

  /** A child is replaced; the counters must move with it. */
  lemma ReplaceInv(s: State, s': State, i: nat, owned: seq<Conn>)
    requires Inv(s) && i < |s.kids| == |s'.kids| && s'.kids == s.kids[i := s'.kids[i]]
    requires ChildInv(s'.kids[i], owned)
    requires s'.navail == s.navail + Free(s'.kids[i]) - Free(s.kids[i])
    requires |s'.owner| == |s.owner| + s'.kids[i].count - s.kids[i].count
    requires forall j :: 0 <= j < |s.kids| ==>
               Owned(s'.owner, j) == if j == i then owned else Owned(s.owner, j)
    requires forall c :: 0 <= c < |s'.owner| ==> s'.owner[c] < |s.kids|
    requires ParentInv(s')
    ensures Inv(s')
  {
    hide ChildInv, Owned, ParentInv;
    TotalUpdate(s.kids, i, s'.kids[i], Free);
    TotalUpdate(s.kids, i, s'.kids[i], Count);
  }

  lemma SomeChildFree(s: State)
    requires Inv(s) && s.navail > 0
    ensures FirstFree(s.kids) < |s.kids|
  {
    TotalPositive(s.kids, Free);
  }

  lemma AcceptInv(s: State, s': State)
    requires Inv(s) && Accept(s, s')
    ensures Inv(s')
  {
    hide ChildInv, Owned, Total;
    var pipes := s.pc.pipes;
    FromStep(pipes, 0);
    if s.pc.listen {
      SomeChildFree(s);
      var i, n := FirstFree(s.kids), |s.owner|;
      GiveConn(s.kids[i], Owned(s.owner, i), n);
      forall j | 0 <= j < |s.kids|
        ensures Owned(s'.owner, j) == if j == i then Owned(s.owner, i) + [n] else Owned(s.owner, j)
      {
        OwnedSnoc(s.owner, i, j);
      }
      AcceptParentInv(s, s');
      ReplaceInv(s, s', i, Owned(s.owner, i) + [n]);
    } else {
      var p :| p in pipes;
    }
  }

  lemma AcceptParentInv(s: State, s': State)
    requires ParentInv(s) && Accept(s, s') && s.pc.listen && FirstFree(s.kids) < |s.kids|
    ensures ParentInv(s')
  {
    FromStep(s.pc.pipes, 0);
    if s.pc.pipes != {} {
      var p :| p in s.pc.pipes;
    }
  }

  lemma OwnedSnoc(owner: seq<nat>, i: nat, j: nat)
    ensures Owned(owner + [i], j) == Owned(owner, j) + if i == j then [|owner|] else []
  {
    assert (owner + [i])[..|owner|] == owner;
  }

  lemma ScanInv(s: State, s': State)
    requires Inv(s) && ScanChild(s, s')
    ensures Inv(s')
  {
    hide ChildInv, Owned, Total;
    var Scan(i, pipes, nsel) := s.pc;
    FromStep(pipes, i);
    if |From(pipes, i + 1)| > 0 {
      var p :| p in From(pipes, i + 1);
    }
    if i in pipes {
      ReadReady(s.kids[i], Owned(s.owner, i));
      ReplaceInv(s, s', i, Owned(s.owner, i));
    }
  }

  lemma ChildStepInv(s: State, s': State, i: nat)
    requires Inv(s) && ChildStep(s, s', i)
    ensures Inv(s')
  {
    hide ChildInv, Owned, Total, AfterChild;
    ChildMoves(s.kids[i], Owned(s.owner, i));
    ReplaceInv(s, s', i, Owned(s.owner, i));
  }

  lemma NextInv(s: State, s': State)
    requires Inv(s) && Next(s, s')
    ensures Inv(s')
  {
    if i: nat :| ChildStep(s, s', i) {
      ChildStepInv(s, s', i);
    } else if Accept(s, s') {
      AcceptInv(s, s');
    } else if ScanChild(s, s') {
      ScanInv(s, s');
    }
  }

  // ----- what holds in every state of every run

  ghost predicate Safe(s: State) {
    && s.navail == Total(s.kids, Free)
    && s.pc != NoAvailableChildren && s.pc != ChildTerminated
    && Total(s.kids, Count) == |s.owner|
    && forall i :: 0 <= i < |s.kids| ==>
         var k := s.kids[i];
         && |Pending(k)| <= 1
         && (k.status == 0 ==> Pending(k) == [])
         && k.count == |k.done + Pending(k)|
  }

  lemma RunSafe(run: seq<State>, n: nat)
    requires IsRun(Init, Next, run) && n < |run|
    ensures Safe(run[n])
    ensures forall c :: 0 <= c < |run[n].owner| ==> run[n].owner[c] < |run[n].kids|
    ensures forall c, i :: 0 <= c < |run[n].owner| && 0 <= i < |run[n].kids| ==>
              (c in run[n].kids[i].done + Pending(run[n].kids[i]) <==> run[n].owner[c] == i)
    ensures forall i, a, b :: 0 <= i < |run[n].kids| ==>
              var given := run[n].kids[i].done + Pending(run[n].kids[i]);
              0 <= a < b < |given| ==> given[a] < given[b]
  {
    forall s | Init(s) ensures Inv(s) { InitInv(s); }
    forall s, s' | Inv(s) && Next(s, s') ensures Inv(s') { NextInv(s, s'); }
    Induction(Init, Next, Inv, run, n);
    var s := run[n];
    forall i | 0 <= i < |s.kids|
      ensures ChildInv(s.kids[i], Owned(s.owner, i))
    {
    }
    forall c, i | 0 <= c < |s.owner| && 0 <= i < |s.kids|
      ensures c in s.kids[i].done + Pending(s.kids[i]) <==> s.owner[c] == i
    {
      OwnedExact(s.owner, i);
    }
    forall i | 0 <= i < |s.kids|
      ensures forall a, b :: 0 <= a < b < |Owned(s.owner, i)| ==> Owned(s.owner, i)[a] < Owned(s.owner, i)[b]
    {
      OwnedExact(s.owner, i);
    }
  }

  /** `cs` lists, in increasing order, exactly the indices of `owner` at which `i` stands. */
  ghost predicate Lists(owner: seq<nat>, i: nat, cs: seq<Conn>) {
    && (forall c :: c in cs <==> 0 <= c < |owner| && owner[c] == i)
    && forall a, b :: 0 <= a < b < |cs| ==> cs[a] < cs[b]
  }

  lemma NoneListed(i: nat)
    ensures Lists([], i, [])
  {
  }

  lemma ListsSnoc(owner: seq<nat>, o: nat, i: nat, cs: seq<Conn>)
    requires Lists(owner, i, cs)
    ensures Lists(owner + [o], i, cs + if o == i then [|owner|] else [])
  {
    assert forall a :: 0 <= a < |cs| ==> cs[a] in cs;
  }

  /** `Owned` lists, in increasing order, exactly the connections of child `i`. */
  lemma {:induction false} OwnedExact(owner: seq<nat>, i: nat)
    ensures Lists(owner, i, Owned(owner, i))
  {
    hide Lists;
    assert owner == [] ==> Lists(owner, i, []) by { NoneListed(i); }
    if owner != [] {
      var n := |owner| - 1;
      OwnedExact(owner[..n], i);
      ListsSnoc(owner[..n], owner[n], i, Owned(owner[..n], i));
      assert owner == owner[..n] + [owner[n]];
    }
  }

  /** A child that receives a connection serves it, closes it and reports, in three steps. */
  lemma ChildCycle(k: Child)
    requires k.pc == Receiving && k.inbox != []
    ensures AfterChild(k).pc == Serving(k.inbox[0])
    ensures var k' := AfterChild(AfterChild(AfterChild(k)));
            && k'.pc == Receiving && k'.inbox == k.inbox[1..]
            && k'.done == k.done + [k.inbox[0]] && k'.ready == k.ready + 1
  {
  }

  /** With a free child, a connection that waits can be accepted and given to it. */
  lemma Dispatches(s: State) returns (s1: State, s2: State)
    requires Inv(s) && s.pc == Top && 0 < s.navail
    ensures Select(s, s1) && Accept(s1, s2) && Next(s, s1) && Next(s1, s2)
    ensures var i := FirstFree(s.kids);
            && i < |s.kids| && s2.pc == Top && s2.owner == s.owner + [i]
            && s2.kids[i].inbox == s.kids[i].inbox + [|s.owner|]
  {
    SomeChildFree(s);
    s1 := s.(pc := Check(true, {}, 1));
    s2 := AfterAccept(s1);
  }

  /** A child that has reported can be marked free, and its byte is read. */
  lemma MarksFree(s: State, i: nat) returns (s1: State)
    requires Inv(s) && s.pc == Scan(i, {i}, 1) && i < |s.kids|
    ensures Next(s, s1) && s1.pc == Top && s1.navail == s.navail + 1
    ensures s1.kids[i].status == 0 && s1.kids[i].ready == s.kids[i].ready - 1
  {
    s1 := AfterScan(s);
    assert ScanChild(s, s1);
  }
}

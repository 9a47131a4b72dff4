/**
 Read-copy-update: readers, and updaters that are serialised by a spinlock and
 free the replaced structure after a grace period. A grace period waits for
 the readers that are inside a critical section when it begins.
 */
module Rcu {
  import opened Common
  import opened Runs

  type Id = nat

  datatype Foo = Foo(a: int, b: int, c: int)

  /** The blocking variant, or one that queues a callback (call_rcu, kfree_rcu). */
  datatype Kind = Blocking | Callback

  /**
   A reader. `entered` and `at` are the positions in `published` of the
   structures that were current when it entered and when it dereferenced
   `gbl_foo`.
   */
  datatype Reader =
    | Out
    | In(entered: nat)
    | Has(entered: nat, fp: Id, at: nat)
    | Got(entered: nat, fp: Id, at: nat, val: int)

  /** A value returned, with the structures current at entry, at the dereference and at exit. */
  datatype Returned = Returned(val: int, entered: nat, at: nat, left: nat)

  /** An updater, one constructor for each point between its statements. */
  datatype Updater =
    | Idle
    | Made(kind: Kind, a: int, newFp: Id)
    | Locked(kind: Kind, a: int, newFp: Id)
    | Looked(kind: Kind, a: int, newFp: Id, oldFp: Id)
    | Copied(kind: Kind, a: int, newFp: Id, oldFp: Id)
    | Filled(kind: Kind, a: int, newFp: Id, oldFp: Id)
    | Published(kind: Kind, oldFp: Id)
    | Released(kind: Kind, oldFp: Id)
    | Syncing(oldFp: Id, waits: set<nat>)

  /** What a structure is used for; bookkeeping, which steps use only to give new structures new names. */
  datatype Role = Private(u: nat) | Current | Unlinked(u: nat) | SyncWait(u: nat) | CallWait | Gone

  /**
   `heap` holds the structures not yet freed and `callbacks` those queued for
   reclaim, with the readers their grace period waits for. `fault` is set by
   an access to a structure that is not in the heap, or by freeing one.
   `published` holds the structures that have been current, oldest first, and
   `requests` the arguments of the updates that published them.
   */
  datatype State = State(
    heap: map<Id, Foo>, gbl: Id, lock: Option<nat>,
    readers: seq<Reader>, updaters: seq<Updater>, callbacks: map<Id, set<nat>>,
    fault: bool, role: map<Id, Role>, retired: seq<Id>, freed: seq<Id>,
    published: seq<Foo>, requests: seq<int>, returned: seq<Returned>)

  datatype Event =
    | ReadLock(r: nat) | Dereference(r: nat) | Read(r: nat) | ReadUnlock(r: nat)
    | Allocate(u: nat, kind: Kind, a: int, id: Id, junk: Foo) | Lock(u: nat) | Look(u: nat) | Copy(u: nat)
    | Fill(u: nat) | Publish(u: nat) | Unlock(u: nat) | Retire(u: nat) | FreeAfterSync(u: nat) | Reclaim(x: Id)

  /** The position of the current structure. */
  function Latest(s: State): nat { if s.published == [] then 0 else |s.published| - 1 }

  function SetReader(s: State, r: nat, p: Reader): State
    requires r < |s.readers|
  {
    s.(readers := s.readers[r := p])
  }

  function SetUpdater(s: State, u: nat, p: Updater): State
    requires u < |s.updaters|
  {
    s.(updaters := s.updaters[u := p])
  }

  /** The readers that a grace period beginning now has to wait for. */
  function Inside(s: State): set<nat> {
    set r | 0 <= r < |s.readers| && s.readers[r] != Out
  }

  function Left(p: Updater, r: nat): Updater {
    if p.Syncing? then p.(waits := p.waits - {r}) else p
  }

  /** `rcu_read_unlock`: every grace period stops waiting for this reader. */
  function Leave(s: State, r: nat): State
    requires r < |s.readers|
  {
    s.(readers := s.readers[r := Out],
       updaters := seq(|s.updaters|, u requires 0 <= u < |s.updaters| => Left(s.updaters[u], r)),
       callbacks := map x | x in s.callbacks :: s.callbacks[x] - {r})
  }

  function Kfree(s: State, x: Id): State {
    s.(heap := s.heap - {x}, fault := s.fault || x !in s.heap,
       role := s.role[x := Gone], freed := s.freed + [x])
  }

  ghost predicate Step(s: State, e: Event, s': State) {
    match e
    case ReadLock(r) => r < |s.readers| && s.readers[r] == Out && s' == SetReader(s, r, In(Latest(s)))
    case Dereference(r) =>
      && r < |s.readers| && s.readers[r].In?
      && s' == SetReader(s, r, Has(s.readers[r].entered, s.gbl, Latest(s)))
    case Read(r) =>
      && r < |s.readers| && s.readers[r].Has?
      && var Has(entered, fp, at) := s.readers[r];
         s' == if fp in s.heap then SetReader(s, r, Got(entered, fp, at, s.heap[fp].a)) else s.(fault := true)
    case ReadUnlock(r) =>
      && r < |s.readers| && s.readers[r].Got?
      && var Got(entered, _, at, val) := s.readers[r];
         s' == Leave(s, r).(returned := s.returned + [Returned(val, entered, at, Latest(s))])
    case Allocate(u, kind, a, id, junk) =>
      && u < |s.updaters| && s.updaters[u] == Idle && id !in s.role
      && s' == SetUpdater(s, u, Made(kind, a, id)).(heap := s.heap[id := junk], role := s.role[id := Private(u)])
    case Lock(u) =>
      && u < |s.updaters| && s.updaters[u].Made? && s.lock == None
      && var Made(kind, a, newFp) := s.updaters[u];
         s' == SetUpdater(s, u, Locked(kind, a, newFp)).(lock := Some(u))
    case Look(u) =>
      && u < |s.updaters| && s.updaters[u].Locked?
      && var Locked(kind, a, newFp) := s.updaters[u];
         s' == SetUpdater(s, u, Looked(kind, a, newFp, s.gbl))
    case Copy(u) =>
      && u < |s.updaters| && s.updaters[u].Looked?
      && var Looked(kind, a, newFp, oldFp) := s.updaters[u];
         s' == if oldFp in s.heap && newFp in s.heap
               then SetUpdater(s, u, Copied(kind, a, newFp, oldFp)).(heap := s.heap[newFp := s.heap[oldFp]])
               else s.(fault := true)
    case Fill(u) =>
      && u < |s.updaters| && s.updaters[u].Copied?
      && var Copied(kind, a, newFp, oldFp) := s.updaters[u];
         s' == if newFp in s.heap
               then SetUpdater(s, u, Filled(kind, a, newFp, oldFp)).(heap := s.heap[newFp := s.heap[newFp].(a := a)])
               else s.(fault := true)
    case Publish(u) =>
      && u < |s.updaters| && s.updaters[u].Filled?
      && var Filled(kind, a, newFp, oldFp) := s.updaters[u];
         s' == SetUpdater(s, u, Published(kind, oldFp)).(
                 gbl := newFp, role := s.role[oldFp := Unlinked(u)][newFp := Current],
                 retired := s.retired + [oldFp], requests := s.requests + [a],
                 published := s.published + [if newFp in s.heap then s.heap[newFp] else Foo(0, 0, 0)])
    case Unlock(u) =>
      && u < |s.updaters| && s.updaters[u].Published?
      && var Published(kind, oldFp) := s.updaters[u];
         s' == SetUpdater(s, u, Released(kind, oldFp)).(lock := None)
    case Retire(u) =>
      && u < |s.updaters| && s.updaters[u].Released?
      && var Released(kind, oldFp) := s.updaters[u];
         s' == if kind == Blocking
               then SetUpdater(s, u, Syncing(oldFp, Inside(s))).(role := s.role[oldFp := SyncWait(u)])
               else SetUpdater(s, u, Idle).(callbacks := s.callbacks[oldFp := Inside(s)],
                                            role := s.role[oldFp := CallWait])
    case FreeAfterSync(u) =>
      && u < |s.updaters| && s.updaters[u].Syncing? && s.updaters[u].waits == {}
      && s' == SetUpdater(Kfree(s, s.updaters[u].oldFp), u, Idle)
    case Reclaim(x) =>
      && x in s.callbacks && s.callbacks[x] == {}
      && s' == Kfree(s, x).(callbacks := s.callbacks - {x})
  }

  ghost predicate Next(s: State, s': State) { exists e :: Step(s, e, s') }

  ghost predicate Init(s: State) {
    && s.gbl == 0 && s.heap.Keys == {0} && s.role == map[0 := Current]
    && s.lock == None && !s.fault && s.callbacks == map[]
    && s.retired == [] && s.freed == [] && s.returned == []
    && s.published == [s.heap[0]] && s.requests == []
    && (forall r :: 0 <= r < |s.readers| ==> s.readers[r] == Out)
    && (forall u :: 0 <= u < |s.updaters| ==> s.updaters[u] == Idle)
  }

  // ----- the invariant

  predicate HoldsLock(p: Updater) {
    p.Locked? || p.Looked? || p.Copied? || p.Filled? || p.Published?
  }

  ghost predicate HasRole(s: State, x: Id, role: Role) { x in s.role && s.role[x] == role }

  ghost predicate UpdaterInv(s: State, u: nat, p: Updater) {
    && (HoldsLock(p) <==> s.lock == Some(u))
    && match p
       case Idle => true
       case Made(_, _, newFp) => HasRole(s, newFp, Private(u))
       case Locked(_, _, newFp) => HasRole(s, newFp, Private(u))
       case Looked(_, _, newFp, oldFp) => HasRole(s, newFp, Private(u)) && oldFp == s.gbl
       case Copied(_, _, newFp, oldFp) =>
         && HasRole(s, newFp, Private(u)) && oldFp == s.gbl
         && newFp in s.heap && s.gbl in s.heap && s.heap[newFp] == s.heap[s.gbl]
       case Filled(_, a, newFp, oldFp) =>
         && HasRole(s, newFp, Private(u)) && oldFp == s.gbl
         && newFp in s.heap && s.gbl in s.heap && s.heap[newFp] == s.heap[s.gbl].(a := a)
       case Published(_, oldFp) => HasRole(s, oldFp, Unlinked(u))
       case Released(_, oldFp) => HasRole(s, oldFp, Unlinked(u))
       case Syncing(oldFp, _) => HasRole(s, oldFp, SyncWait(u))
  }

  /** Whoever holds a structure that awaits its grace period is being waited for. */
  ghost predicate HolderInv(s: State, r: nat, fp: Id, entered: nat, at: nat) {
    && fp in s.role && fp in s.heap && entered <= at < |s.published| && s.heap[fp] == s.published[at]
    && match s.role[fp]
       case Private(_) => false
       case Current => true
       case Unlinked(_) => true
       case SyncWait(u) =>
         u < |s.updaters| && s.updaters[u].Syncing? && s.updaters[u].oldFp == fp && r in s.updaters[u].waits
       case CallWait => fp in s.callbacks && r in s.callbacks[fp]
       case Gone => false
  }

  ghost predicate ReaderInv(s: State, r: nat, p: Reader) {
    match p
    case Out => true
    case In(entered) => entered < |s.published|
    case Has(entered, fp, at) => HolderInv(s, r, fp, entered, at)
    case Got(entered, fp, at, val) => HolderInv(s, r, fp, entered, at) && val == s.published[at].a
  }

  ghost predicate RoleInv(s: State) {
    && HasRole(s, s.gbl, Current)
    && (forall x :: x in s.heap <==> x in s.role && s.role[x] != Gone)
    && (forall x :: x in s.role && s.role[x] == Current ==> x == s.gbl)
    && (forall x :: x in s.callbacks <==> HasRole(s, x, CallWait))
  }

  ghost predicate NoDup(xs: seq<Id>) {
    forall i, j :: 0 <= i < j < |xs| ==> xs[i] != xs[j]
  }

  lemma NoDupSnoc(xs: seq<Id>, x: Id)
    requires NoDup(xs) && x !in xs
    ensures NoDup(xs + [x])
  {
  }

  /** The value is that of a structure which was current between entry and exit. */
  ghost predicate Timely(published: seq<Foo>, v: Returned) {
    v.entered <= v.at <= v.left < |published| && v.val == published[v.at].a
  }

  ghost predicate LogInv(s: State) {
    && (forall x :: x in s.retired <==> x in s.role && !s.role[x].Private? && s.role[x] != Current)
    && (forall x :: x in s.freed <==> HasRole(s, x, Gone))
    && NoDup(s.retired) && NoDup(s.freed)
    && (forall i :: 0 <= i < |s.returned| ==> Timely(s.published, s.returned[i]))
    && s.gbl in s.heap && History(s.published, s.requests, s.heap[s.gbl])
  }

  /** Each structure is the one before it with `a` replaced as requested; the last is current. */
  ghost predicate History(published: seq<Foo>, requests: seq<int>, current: Foo) {
    && |published| == |requests| + 1 && published[|requests|] == current
    && forall i :: 0 <= i < |requests| ==> published[i + 1] == published[i].(a := requests[i])
  }

  lemma HistorySnoc(published: seq<Foo>, requests: seq<int>, current: Foo, a: int)
    requires History(published, requests, current)
    ensures History(published + [current.(a := a)], requests + [a], current.(a := a))
  {
  }

  ghost predicate Inv(s: State) {
    && !s.fault
    && RoleInv(s)
    && LogInv(s)
    && (forall u :: 0 <= u < |s.updaters| ==> UpdaterInv(s, u, s.updaters[u]))
    && (forall r :: 0 <= r < |s.readers| ==> ReaderInv(s, r, s.readers[r]))
  }

  lemma InitInv(s: State)
    requires Init(s)
    ensures Inv(s)
  {
    assert 0 in s.heap;
  }

  // Readers.

  lemma ReaderFrame(s: State, s': State, r: nat)
    requires Inv(s) && r < |s.readers| == |s'.readers|
    requires s' == s.(readers := s.readers[r := s'.readers[r]])
    requires ReaderInv(s, r, s'.readers[r])
    ensures Inv(s')
  {
    forall q | 0 <= q < |s'.readers| ensures ReaderInv(s', q, s'.readers[q]) {
      assert q != r ==> ReaderInv(s, q, s.readers[q]);
    }
    forall u | 0 <= u < |s'.updaters| ensures UpdaterInv(s', u, s'.updaters[u]) {
      assert UpdaterInv(s, u, s.updaters[u]);
    }
  }

  lemma ReadLockInv(s: State, r: nat, s': State)
    requires Inv(s) && Step(s, ReadLock(r), s')
    ensures Inv(s')
  {
    ReaderFrame(s, s', r);
  }

  lemma DereferenceInv(s: State, r: nat, s': State)
    requires Inv(s) && Step(s, Dereference(r), s')
    ensures Inv(s')
  {
    ReaderFrame(s, s', r);
  }

  lemma ReadInv(s: State, r: nat, s': State)
    requires Inv(s) && Step(s, Read(r), s')
    ensures Inv(s')
  {
    assert ReaderInv(s, r, s.readers[r]);
    ReaderFrame(s, s', r);
  }

  lemma ReadUnlockInv(s: State, r: nat, s': State)
    requires Inv(s) && Step(s, ReadUnlock(r), s')
    ensures Inv(s')
  {
    forall u | 0 <= u < |s'.updaters| ensures UpdaterInv(s', u, s'.updaters[u]) {
      assert UpdaterInv(s, u, s.updaters[u]);
    }
    assert ReaderInv(s, r, s.readers[r]);
    forall q | 0 <= q < |s'.readers| ensures ReaderInv(s', q, s'.readers[q]) {
      assert ReaderInv(s, q, s.readers[q]);
    }
  }

  // Updaters, before they publish or after they have unlocked.

  /** Only what is private to `u`, or the lock, has changed. */
  ghost predicate PrivateChange(s: State, s': State, u: nat) {
    && u < |s.updaters| == |s'.updaters|
    && (forall v :: 0 <= v < |s.updaters| && v != u ==> s'.updaters[v] == s.updaters[v])
    && !s.updaters[u].Syncing?
    && (s'.lock == s.lock || (s'.lock in {None, Some(u)} && s.lock in {None, Some(u)}))
    && (forall x :: x in s.role ==> x in s'.role && s'.role[x] == s.role[x])
    && (forall x :: x in s.heap && !HasRole(s, x, Private(u)) ==> x in s'.heap && s'.heap[x] == s.heap[x])
    && s' == s.(updaters := s'.updaters, lock := s'.lock, role := s'.role, heap := s'.heap)
  }

  lemma PrivateFrame(s: State, s': State, u: nat)
    requires Inv(s) && RoleInv(s) && PrivateChange(s, s', u)
    requires RoleInv(s') && LogInv(s') && UpdaterInv(s', u, s'.updaters[u])
    ensures Inv(s')
  {
    hide LogInv;
    forall v | 0 <= v < |s'.updaters| ensures UpdaterInv(s', v, s'.updaters[v]) {
      assert UpdaterInv(s, v, s.updaters[v]);
    }
    forall r | 0 <= r < |s'.readers| ensures ReaderInv(s', r, s'.readers[r]) {
      assert ReaderInv(s, r, s.readers[r]);
    }
  }

  lemma AllocateRole(s: State, u: nat, id: Id, junk: Foo, s': State)
    requires RoleInv(s) && LogInv(s) && id !in s.role
    requires s' == s.(updaters := s'.updaters, heap := s.heap[id := junk], role := s.role[id := Private(u)])
    ensures RoleInv(s') && LogInv(s')
  {
  }

  lemma AllocateInv(s: State, u: nat, kind: Kind, a: int, id: Id, junk: Foo, s': State)
    requires Inv(s) && Step(s, Allocate(u, kind, a, id, junk), s')
    ensures Inv(s')
  {
    assert UpdaterInv(s, u, s.updaters[u]);
    AllocateRole(s, u, id, junk, s');
    assert id !in s.heap;
    hide RoleInv, LogInv;
    PrivateFrame(s, s', u);
  }

  lemma LockInv(s: State, u: nat, s': State)
    requires Inv(s) && Step(s, Lock(u), s')
    ensures Inv(s')
  {
    assert UpdaterInv(s, u, s.updaters[u]);
    PrivateFrame(s, s', u);
  }

  lemma LookInv(s: State, u: nat, s': State)
    requires Inv(s) && Step(s, Look(u), s')
    ensures Inv(s')
  {
    assert UpdaterInv(s, u, s.updaters[u]);
    PrivateFrame(s, s', u);
  }

  lemma CopyInv(s: State, u: nat, s': State)
    requires Inv(s) && Step(s, Copy(u), s')
    ensures Inv(s')
  {
    assert UpdaterInv(s, u, s.updaters[u]);
    PrivateFrame(s, s', u);
  }

  lemma FillInv(s: State, u: nat, s': State)
    requires Inv(s) && Step(s, Fill(u), s')
    ensures Inv(s')
  {
    assert UpdaterInv(s, u, s.updaters[u]);
    PrivateFrame(s, s', u);
  }

  lemma UnlockInv(s: State, u: nat, s': State)
    requires Inv(s) && Step(s, Unlock(u), s')
    ensures Inv(s')
  {
    assert UpdaterInv(s, u, s.updaters[u]);
    PrivateFrame(s, s', u);
  }

  // Publication, retirement and freeing.

  lemma PublishRole(s: State, u: nat, s': State)
    requires RoleInv(s) && LogInv(s) && Step(s, Publish(u), s') && UpdaterInv(s, u, s.updaters[u])
    ensures RoleInv(s') && LogInv(s')
  {
    NoDupSnoc(s.retired, s.gbl);
    HistorySnoc(s.published, s.requests, s.heap[s.gbl], s.updaters[u].a);
    hide NoDup, History;
  }

  lemma PublishReaders(s: State, u: nat, s': State)
    requires Inv(s) && Step(s, Publish(u), s') && UpdaterInv(s, u, s.updaters[u])
    ensures forall r :: 0 <= r < |s'.readers| ==> ReaderInv(s', r, s'.readers[r])
  {
    hide LogInv;
    forall r | 0 <= r < |s'.readers| ensures ReaderInv(s', r, s'.readers[r]) {
      assert ReaderInv(s, r, s.readers[r]);
    }
  }

  lemma PublishInv(s: State, u: nat, s': State)
    requires Inv(s) && Step(s, Publish(u), s')
    ensures Inv(s')
  {
    assert UpdaterInv(s, u, s.updaters[u]);
    PublishRole(s, u, s');
    PublishReaders(s, u, s');
    hide LogInv, ReaderInv;
    forall v | 0 <= v < |s'.updaters| ensures UpdaterInv(s', v, s'.updaters[v]) {
      assert UpdaterInv(s, v, s.updaters[v]);
    }
  }

  lemma RetireReaders(s: State, u: nat, s': State)
    requires Inv(s) && Step(s, Retire(u), s') && UpdaterInv(s, u, s.updaters[u])
    ensures forall r :: 0 <= r < |s'.readers| ==> ReaderInv(s', r, s'.readers[r])
  {
    hide LogInv;
    forall r | 0 <= r < |s'.readers| ensures ReaderInv(s', r, s'.readers[r]) {
      assert ReaderInv(s, r, s.readers[r]);
      assert s.readers[r] != Out ==> r in Inside(s);
    }
  }

  lemma RetireUpdaters(s: State, u: nat, s': State)
    requires Inv(s) && Step(s, Retire(u), s') && UpdaterInv(s, u, s.updaters[u])
    ensures forall v :: 0 <= v < |s'.updaters| ==> UpdaterInv(s', v, s'.updaters[v])
  {
    hide LogInv, ReaderInv;
    forall v | 0 <= v < |s'.updaters| ensures UpdaterInv(s', v, s'.updaters[v]) {
      assert UpdaterInv(s, v, s.updaters[v]);
    }
  }

  lemma SyncRole(s: State, x: Id, u: nat, s': State)
    requires RoleInv(s) && LogInv(s) && HasRole(s, x, Unlinked(u))
    requires s' == s.(updaters := s'.updaters, role := s.role[x := SyncWait(u)])
    ensures RoleInv(s') && LogInv(s')
  {
    hide NoDup;
  }

  lemma CallRole(s: State, x: Id, u: nat, waits: set<nat>, s': State)
    requires RoleInv(s) && LogInv(s) && HasRole(s, x, Unlinked(u))
    requires s' == s.(updaters := s'.updaters, callbacks := s.callbacks[x := waits], role := s.role[x := CallWait])
    ensures RoleInv(s') && LogInv(s')
  {
    hide NoDup;
  }

  lemma RetireInv(s: State, u: nat, s': State)
    requires Inv(s) && Step(s, Retire(u), s')
    ensures Inv(s')
  {
    assert UpdaterInv(s, u, s.updaters[u]);
    var Released(kind, oldFp) := s.updaters[u];
    if kind == Blocking { SyncRole(s, oldFp, u, s'); } else { CallRole(s, oldFp, u, Inside(s), s'); }
    RetireReaders(s, u, s');
    RetireUpdaters(s, u, s');
    assert !s'.fault;
    hide RoleInv, LogInv, ReaderInv, UpdaterInv, Step;
  }

  /** What freeing needs to know: nobody refers to `x` any more. */
  ghost predicate Unreferenced(s: State, x: Id) {
    && x in s.role && (s.role[x].SyncWait? || s.role[x] == CallWait)
    && (s.role[x].SyncWait? ==>
          s.role[x].u < |s.updaters| && s.updaters[s.role[x].u].Syncing? && s.updaters[s.role[x].u].oldFp == x)
    && forall r :: 0 <= r < |s.readers| && (s.readers[r].Has? || s.readers[r].Got?) ==> s.readers[r].fp != x
  }

  /** `x` is freed, and the updater that waited for it, if any, is done. */
  ghost predicate Freeing(s: State, x: Id, s': State) {
    && s' == Kfree(s, x).(updaters := s'.updaters, callbacks := s.callbacks - {x})
    && |s'.updaters| == |s.updaters|
    && forall u :: 0 <= u < |s.updaters| ==>
         s'.updaters[u] == if HasRole(s, x, SyncWait(u)) then Idle else s.updaters[u]
  }

  lemma KfreeReaders(s: State, x: Id, s': State)
    requires Inv(s) && Unreferenced(s, x) && Freeing(s, x, s')
    ensures forall r :: 0 <= r < |s'.readers| ==> ReaderInv(s', r, s'.readers[r])
  {
    hide LogInv, UpdaterInv;
    forall r | 0 <= r < |s'.readers| ensures ReaderInv(s', r, s'.readers[r]) {
      assert ReaderInv(s, r, s.readers[r]);
    }
  }

  lemma KfreeUpdaters(s: State, x: Id, s': State)
    requires Inv(s) && Unreferenced(s, x) && Freeing(s, x, s')
    ensures forall u :: 0 <= u < |s'.updaters| ==> UpdaterInv(s', u, s'.updaters[u])
  {
    hide LogInv, ReaderInv;
    forall u | 0 <= u < |s'.updaters| ensures UpdaterInv(s', u, s'.updaters[u]) {
      assert UpdaterInv(s, u, s.updaters[u]);
    }
  }

  lemma KfreeInv(s: State, x: Id, s': State)
    requires Inv(s) && Unreferenced(s, x) && Freeing(s, x, s')
    ensures Inv(s')
  {
    KfreeRole(s, x, s');
    KfreeReaders(s, x, s');
    KfreeUpdaters(s, x, s');
    assert !s'.fault;
    hide RoleInv, LogInv, ReaderInv, UpdaterInv;
  }

  lemma KfreeRole(s: State, x: Id, s': State)
    requires RoleInv(s) && LogInv(s) && x in s.role && (s.role[x].SyncWait? || s.role[x] == CallWait)
    requires s' == Kfree(s, x).(updaters := s'.updaters, callbacks := s.callbacks - {x})
    ensures RoleInv(s') && LogInv(s')
  {
    NoDupSnoc(s.freed, x);
    hide NoDup;
  }

  lemma FreeAfterSyncInv(s: State, u: nat, s': State)
    requires Inv(s) && Step(s, FreeAfterSync(u), s')
    ensures Inv(s')
  {
    assert UpdaterInv(s, u, s.updaters[u]);
    var x := s.updaters[u].oldFp;
    forall r | 0 <= r < |s.readers| && (s.readers[r].Has? || s.readers[r].Got?)
      ensures s.readers[r].fp != x
    {
      assert ReaderInv(s, r, s.readers[r]);
    }
    assert s.callbacks - {x} == s.callbacks;
    KfreeInv(s, x, s');
  }

  lemma ReclaimInv(s: State, x: Id, s': State)
    requires Inv(s) && Step(s, Reclaim(x), s')
    ensures Inv(s')
  {
    forall r | 0 <= r < |s.readers| && (s.readers[r].Has? || s.readers[r].Got?)
      ensures s.readers[r].fp != x
    {
      assert ReaderInv(s, r, s.readers[r]);
    }
    KfreeInv(s, x, s');
  }

  lemma NextInv(s: State, s': State)
    requires Inv(s) && Next(s, s')
    ensures Inv(s')
  {
    hide Inv;
    var e :| Step(s, e, s');
    hide Step;
    match e
    case ReadLock(r) => ReadLockInv(s, r, s');
    case Dereference(r) => DereferenceInv(s, r, s');
    case Read(r) => ReadInv(s, r, s');
    case ReadUnlock(r) => ReadUnlockInv(s, r, s');
    case Allocate(u, kind, a, id, junk) => AllocateInv(s, u, kind, a, id, junk, s');
    case Lock(u) => LockInv(s, u, s');
    case Look(u) => LookInv(s, u, s');
    case Copy(u) => CopyInv(s, u, s');
    case Fill(u) => FillInv(s, u, s');
    case Publish(u) => PublishInv(s, u, s');
    case Unlock(u) => UnlockInv(s, u, s');
    case Retire(u) => RetireInv(s, u, s');
    case FreeAfterSync(u) => FreeAfterSyncInv(s, u, s');
    case Reclaim(x) => ReclaimInv(s, x, s');
  }

  // ----- what holds in every state of every run

  ghost predicate Safe(s: State) {
    && !s.fault
    && (forall r :: 0 <= r < |s.readers| && (s.readers[r].Has? || s.readers[r].Got?) ==>
          s.readers[r].fp in s.heap && s.readers[r].fp !in s.freed)
    && NoDup(s.retired) && NoDup(s.freed)
    && (forall x :: x in s.freed ==> x in s.retired)
    && s.gbl in s.heap && s.gbl !in s.retired
    && (forall i :: 0 <= i < |s.returned| ==> Timely(s.published, s.returned[i]))
    && History(s.published, s.requests, s.heap[s.gbl])
  }

  lemma RunSafe(run: seq<State>, n: nat)
    requires IsRun(Init, Next, run) && n < |run|
    ensures Safe(run[n])
  {
    forall s | Init(s) ensures Inv(s) { InitInv(s); }
    forall s, s' | Inv(s) && Next(s, s') ensures Inv(s') { NextInv(s, s'); }
    Induction(Init, Next, Inv, run, n);
    forall r | 0 <= r < |run[n].readers| ensures ReaderInv(run[n], r, run[n].readers[r]) {}
  }

  // ----- the steps can be taken

  /** A reader that nothing interrupts returns the current value of `a`. */
  lemma ReadsCurrent(s: State, r: nat) returns (s1: State, s2: State, s3: State, s4: State)
    requires Inv(s) && r < |s.readers| && s.readers[r] == Out
    ensures Step(s, ReadLock(r), s1) && Step(s1, Dereference(r), s2)
    ensures Step(s2, Read(r), s3) && Step(s3, ReadUnlock(r), s4)
    ensures s.gbl in s.heap && s4.readers == s.readers
    ensures s4.returned == s.returned + [Returned(s.heap[s.gbl].a, Latest(s), Latest(s), Latest(s))]
  {
    s1 := SetReader(s, r, In(Latest(s)));
    s2 := SetReader(s1, r, Has(Latest(s), s.gbl, Latest(s)));
    s3 := SetReader(s2, r, Got(Latest(s), s.gbl, Latest(s), s.heap[s.gbl].a));
    s4 := Leave(s3, r).(returned := s.returned + [Returned(s.heap[s.gbl].a, Latest(s), Latest(s), Latest(s))]);
    assert s4.readers == s.readers;
  }

  /** With the spinlock free, an updater that nothing interrupts prepares a private copy. */
  lemma Prepares(s: State, u: nat, kind: Kind, a: int, id: Id, junk: Foo) returns (p: seq<State>)
    requires u < |s.updaters| && s.updaters[u] == Idle && s.lock == None
    requires s.gbl in s.heap && s.gbl in s.role && id !in s.role
    ensures |p| == 5
    ensures Step(s, Allocate(u, kind, a, id, junk), p[0]) && Step(p[0], Lock(u), p[1]) && Step(p[1], Look(u), p[2])
    ensures Step(p[2], Copy(u), p[3]) && Step(p[3], Fill(u), p[4])
    ensures p[4] == SetUpdater(s, u, Filled(kind, a, id, s.gbl)).(
                      lock := Some(u), role := s.role[id := Private(u)], heap := s.heap[id := s.heap[s.gbl].(a := a)])
  {
    var was := s.gbl;
    var s1 := SetUpdater(s, u, Made(kind, a, id)).(heap := s.heap[id := junk], role := s.role[id := Private(u)]);
    var s2 := SetUpdater(s1, u, Locked(kind, a, id)).(lock := Some(u));
    var s3 := SetUpdater(s2, u, Looked(kind, a, id, was));
    var s4 := SetUpdater(s3, u, Copied(kind, a, id, was)).(heap := s3.heap[id := s3.heap[was]]);
    var s5 := SetUpdater(s4, u, Filled(kind, a, id, was)).(heap := s4.heap[id := s4.heap[id].(a := a)]);
    assert s5.updaters == s.updaters[u := Filled(kind, a, id, was)];
    assert s5.heap == s.heap[id := s.heap[was].(a := a)];
    p := [s1, s2, s3, s4, s5];
  }

  /** A prepared copy is published, and the spinlock released. */
  lemma Publishes(s: State, u: nat) returns (s1: State, s2: State)
    requires u < |s.updaters| && s.updaters[u].Filled? && s.updaters[u].newFp in s.heap
    ensures Step(s, Publish(u), s1) && Step(s1, Unlock(u), s2)
    ensures s2.gbl == s.updaters[u].newFp && s2.heap == s.heap && s2.lock == None && s2.readers == s.readers
    ensures s2.published == s.published + [s.heap[s2.gbl]]
    ensures u < |s2.updaters| && s2.updaters[u] == Released(s.updaters[u].kind, s.updaters[u].oldFp)
  {
    var Filled(kind, a, id, was) := s.updaters[u];
    s1 := SetUpdater(s, u, Published(kind, was)).(
      gbl := id, role := s.role[was := Unlinked(u)][id := Current], retired := s.retired + [was],
      requests := s.requests + [a], published := s.published + [s.heap[id]]);
    s2 := SetUpdater(s1, u, Released(kind, was)).(lock := None);
  }

  /** Once no reader is left that was inside, the old structure can be freed, in either variant. */
  lemma Frees(s: State, u: nat) returns (s1: State, s2: State)
    requires u < |s.updaters| && s.updaters[u].Released? && s.updaters[u].oldFp !in s.callbacks
    requires forall r :: 0 <= r < |s.readers| ==> s.readers[r] == Out
    ensures Step(s, Retire(u), s1)
    ensures var x := s.updaters[u].oldFp;
            && Step(s1, if s.updaters[u].kind == Blocking then FreeAfterSync(u) else Reclaim(x), s2)
            && x !in s2.heap && s2.freed == s.freed + [x]
            && u < |s2.updaters| && s2.updaters[u] == Idle && x !in s2.callbacks
  {
    var Released(kind, x) := s.updaters[u];
    assert Inside(s) == {};
    if kind == Blocking {
      s1 := SetUpdater(s, u, Syncing(x, {})).(role := s.role[x := SyncWait(u)]);
      s2 := SetUpdater(Kfree(s1, x), u, Idle);
    } else {
      s1 := SetUpdater(s, u, Idle).(callbacks := s.callbacks[x := {}], role := s.role[x := CallWait]);
      s2 := Kfree(s1, x).(callbacks := s1.callbacks - {x});
    }
  }
}

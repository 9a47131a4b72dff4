/**
 BSD tail queues. A back link is not the previous element but the address of
 the slot that points here: the head's first-pointer or the previous element's
 next-pointer.
 */
module TailQueue {
  /** The address of a pointer to an element. `Wild` is an address never set. */
  datatype Slot = Wild | FirstOf(head: Head) | NextOf(elem: Elem)

  class Elem {
    var next: Elem?  // tqe_next
    var prev: Slot   // tqe_prev
  }

  ghost function Target(slot: Slot): set<object> {
    match slot
    case Wild => {}
    case FirstOf(h) => {h}
    case NextOf(e) => {e}
  }

  /** `*slot` */
  function Load(slot: Slot): Elem?
    requires slot != Wild
    reads Target(slot)
  {
    match slot
    case FirstOf(h) => h.first
    case NextOf(e) => e.next
  }

  /**
   The word after `slot`, read as a head's last-pointer. A head and an element
   have the same layout there, so for an element it is the back link.
   */
  function LastOf(slot: Slot): Slot
    requires slot != Wild
    reads Target(slot)
  {
    match slot
    case FirstOf(h) => h.last
    case NextOf(e) => e.prev
  }

  /** `*slot = value` */
  method Store(slot: Slot, value: Elem?)
    requires slot != Wild
    modifies Target(slot)
    ensures Load(slot) == value && LastOf(slot) == old(LastOf(slot))
    ensures slot.FirstOf? ==> slot.head.elems == old(slot.head.elems)
  {
    match slot
    case FirstOf(h) => h.first := value;
    case NextOf(e) => e.next := value;
  }

  ghost predicate Distinct(s: seq<Elem>) {
    forall i, j :: 0 <= i < j < |s| ==> s[i] != s[j]
  }

  ghost predicate Disjoint(s: seq<Elem>, t: seq<Elem>) {
    forall i, j :: 0 <= i < |s| && 0 <= j < |t| ==> s[i] != t[j]
  }

  ghost function At(s: seq<Elem>, i: nat): Elem? {
    if i < |s| then s[i] else null
  }

  /** The slot that holds the pointer to position `i`. */
  ghost function SlotTo(h: Head, s: seq<Elem>, i: nat): Slot
    requires i <= |s|
  {
    if i == 0 then FirstOf(h) else NextOf(s[i - 1])
  }

  /** The links of `h` and of `s` are those of a queue that holds `s`. */
  ghost predicate Represents(h: Head, s: seq<Elem>)
    reads h, s
  {
    && Distinct(s)
    && h.first == At(s, 0)
    && h.last == SlotTo(h, s, |s|)
    && (forall i {:trigger s[i].next} :: 0 <= i < |s| ==> s[i].next == At(s, i + 1))
    && (forall i {:trigger s[i].prev} :: 0 <= i < |s| ==> s[i].prev == SlotTo(h, s, i))
  }

  /** A queue's contents are determined by its links. */
  lemma RepresentsUnique(h: Head, s: seq<Elem>, t: seq<Elem>)
    requires Represents(h, s) && Represents(h, t)
    ensures s == t
  {
    forall i | 0 <= i <= |s|
      ensures i <= |t| && s[..i] == t[..i] && At(s, i) == At(t, i)
    {
      SamePrefix(h, s, t, i);
    }
    assert At(t, |s|) == null;
    assert s[..|s|] == s && t[..|s|] == t;
  }

  lemma {:induction false} SamePrefix(h: Head, s: seq<Elem>, t: seq<Elem>, i: nat)
    requires Represents(h, s) && Represents(h, t) && i <= |s|
    ensures i <= |t| && s[..i] == t[..i] && At(s, i) == At(t, i)
  {
    if i != 0 {
      SamePrefix(h, s, t, i - 1);
      assert s[i - 1].next == At(s, i) && t[i - 1].next == At(t, i);
    }
  }

  ghost function Insert(s: seq<Elem>, k: nat, x: Elem): seq<Elem>
    requires k <= |s|
  {
    s[..k] + [x] + s[k..]
  }

  ghost function Delete(s: seq<Elem>, k: nat): (t: seq<Elem>)
    requires k < |s|
    ensures |t| == |s| - 1
  {
    s[..k] + s[k + 1..]
  }

  /** The links of `s`, except that `x` has been linked in at position `k`. */
  ghost predicate LinkedIn(h: Head, s: seq<Elem>, k: nat, x: Elem)
    reads h, s, x
  {
    && Distinct(s) && k <= |s| && x !in s
    && h.first == (if k == 0 then x else At(s, 0))
    && h.last == (if k == |s| then NextOf(x) else SlotTo(h, s, |s|))
    && x.next == At(s, k) && x.prev == SlotTo(h, s, k)
    && (forall i {:trigger s[i].next} :: 0 <= i < |s| ==> s[i].next == if i + 1 == k then x else At(s, i + 1))
    && (forall i {:trigger s[i].prev} :: 0 <= i < |s| ==> s[i].prev == if i == k then NextOf(x) else SlotTo(h, s, i))
  }

  lemma InsertIndex(s: seq<Elem>, k: nat, x: Elem, i: nat)
    requires k <= |s|
    ensures |Insert(s, k, x)| == |s| + 1
    ensures At(Insert(s, k, x), i) == if i < k then s[i] else if i == k then x else At(s, i - 1)
  {
  }

  lemma InsertDistinct(s: seq<Elem>, k: nat, x: Elem)
    requires k <= |s| && Distinct(s) && x !in s
    ensures Distinct(Insert(s, k, x))
  {
  }

  lemma LinkedInRepresents(h: Head, s: seq<Elem>, k: nat, x: Elem)
    requires LinkedIn(h, s, k, x)
    ensures Represents(h, Insert(s, k, x))
  {
    hide Insert, Distinct;
    var t := Insert(s, k, x);
    InsertDistinct(s, k, x);
    InsertIndex(s, k, x, 0);
    InsertIndex(s, k, x, |s|);
    forall i | 0 <= i < |t|
      ensures t[i].next == At(t, i + 1) && t[i].prev == SlotTo(h, t, i)
    {
      InsertIndex(s, k, x, i);
      InsertIndex(s, k, x, i + 1);
      if i != 0 { InsertIndex(s, k, x, i - 1); }
    }
  }

  /** The links of `s`, except that position `k` has been bypassed. */
  ghost predicate Bypassed(h: Head, s: seq<Elem>, k: nat)
    reads h, s
  {
    && Distinct(s) && k < |s|
    && h.first == (if k == 0 then At(s, 1) else s[0])
    && h.last == (if k == |s| - 1 then SlotTo(h, s, k) else SlotTo(h, s, |s|))
    && (forall i {:trigger s[i].next} :: 0 <= i < |s| ==>
          s[i].next == if i + 1 == k then At(s, k + 1) else At(s, i + 1))
    && (forall i {:trigger s[i].prev} :: 0 <= i < |s| ==>
          s[i].prev == if i == k + 1 then SlotTo(h, s, k) else SlotTo(h, s, i))
  }

  lemma DeleteIndex(s: seq<Elem>, k: nat, i: nat)
    requires k < |s|
    ensures |Delete(s, k)| == |s| - 1
    ensures At(Delete(s, k), i) == if i < k then s[i] else At(s, i + 1)
  {
  }

  lemma DeleteDistinct(s: seq<Elem>, k: nat)
    requires k < |s| && Distinct(s)
    ensures Distinct(Delete(s, k)) && s[k] !in Delete(s, k)
  {
  }

  lemma BypassedLinks(h: Head, s: seq<Elem>, k: nat, i: nat)
    requires Bypassed(h, s, k) && i < |s| - 1
    ensures var t := Delete(s, k); t[i].next == At(t, i + 1) && t[i].prev == SlotTo(h, t, i)
  {
    hide Delete, Distinct;
    DeleteIndex(s, k, i);
    DeleteIndex(s, k, i + 1);
    if i != 0 { DeleteIndex(s, k, i - 1); }
  }

  lemma BypassedEnds(h: Head, s: seq<Elem>, k: nat)
    requires Bypassed(h, s, k)
    ensures var t := Delete(s, k);
            && h.first == At(t, 0) && h.last == SlotTo(h, t, |t|)
            && s[k].prev == SlotTo(h, t, k) && s[k].next == At(t, k)
  {
    hide Delete, Distinct;
    DeleteIndex(s, k, 0);
    DeleteIndex(s, k, k);
    if k != 0 { DeleteIndex(s, k, k - 1); }
    if 2 <= |s| { DeleteIndex(s, k, |s| - 2); }
  }

  lemma BypassedRepresents(h: Head, s: seq<Elem>, k: nat)
    requires Bypassed(h, s, k)
    ensures Represents(h, Delete(s, k)) && s[k] !in Delete(s, k)
    ensures s[k].prev == SlotTo(h, Delete(s, k), k) && s[k].next == At(Delete(s, k), k)
  {
    var t := Delete(s, k);
    DeleteDistinct(s, k);
    BypassedEnds(h, s, k);
    hide Delete, Distinct, Bypassed, At, SlotTo;
    forall i | 0 <= i < |t|
      ensures t[i].next == At(t, i + 1) && t[i].prev == SlotTo(h, t, i)
    {
      BypassedLinks(h, s, k, i);
    }
  }

  /** The links of `s` and of `t`, except that the end of `s` leads to `t`. */
  ghost predicate Chained(h: Head, s: seq<Elem>, t: seq<Elem>)
    reads h, s, t
  {
    && Distinct(s) && Distinct(t) && t != []
    && Disjoint(s, t)
    && h.first == (if s == [] then t[0] else s[0])
    && h.last == NextOf(t[|t| - 1])
    && (forall i {:trigger s[i].next} :: 0 <= i < |s| ==> s[i].next == if i + 1 == |s| then t[0] else s[i + 1])
    && (forall i {:trigger s[i].prev} :: 0 <= i < |s| ==> s[i].prev == SlotTo(h, s, i))
    && (forall i {:trigger t[i].next} :: 0 <= i < |t| ==> t[i].next == At(t, i + 1))
    && (forall i {:trigger t[i].prev} :: 0 <= i < |t| ==>
          t[i].prev == if i == 0 then SlotTo(h, s, |s|) else NextOf(t[i - 1]))
  }

  lemma ConcatDistinct(s: seq<Elem>, t: seq<Elem>)
    requires Distinct(s) && Distinct(t) && Disjoint(s, t)
    ensures Distinct(s + t)
  {
  }

  lemma ChainedRepresents(h: Head, s: seq<Elem>, t: seq<Elem>)
    requires Chained(h, s, t)
    ensures Represents(h, s + t)
  {
    var u := s + t;
    ConcatDistinct(s, t);
    forall i | 0 <= i < |u|
      ensures u[i].next == At(u, i + 1) && u[i].prev == SlotTo(h, u, i)
    {
      if |s| <= i {
        assert u[i] == t[i - |s|];
      }
    }
  }

  class Head {
    var first: Elem?        // tqh_first
    var last: Slot          // tqh_last
    ghost var elems: seq<Elem>

    ghost predicate Valid()
      reads this, elems
    {
      Represents(this, elems)
    }

    /** `x` is out of the queue and still has the links it had inside it. */
    ghost predicate JustRemoved(x: Elem)
      reads this, elems, x
    {
      x !in elems && exists k :: 0 <= k <= |elems| && x.prev == SlotTo(this, elems, k) && x.next == At(elems, k)
    }

    constructor ()
      ensures Valid() && elems == []
    {
      first, elems := null, [];
      new;
      last := FirstOf(this);
    }

    method Init()
      modifies this
      ensures Valid() && elems == []
    {
      first := null;
      last := FirstOf(this);
      elems := [];
    }

    method InsertHead(elm: Elem)
      requires Valid() && elm !in elems
      modifies this, elems, elm
      ensures Valid() && elems == Insert(old(elems), 0, elm)
    {
      elm.next := first;
      if elm.next != null {
        first.prev := NextOf(elm);
      } else {
        last := NextOf(elm);
      }
      first := elm;
      elm.prev := FirstOf(this);
      elems := Insert(elems, 0, elm);
      LinkedInRepresents(this, old(elems), 0, elm);
    }

    method InsertTail(elm: Elem)
      requires Valid() && elm !in elems
      modifies this, elems, elm
      ensures Valid() && elems == Insert(old(elems), |old(elems)|, elm)
    {
      elm.next := null;
      elm.prev := last;
      Store(last, elm);
      last := NextOf(elm);
      elems := Insert(elems, |elems|, elm);
      LinkedInRepresents(this, old(elems), |old(elems)|, elm);
    }

    method InsertAfter(listelm: Elem, elm: Elem) returns (ghost k: nat)
      requires Valid() && listelm in elems && elm !in elems
      modifies this, elems, elm
      ensures Valid()
      ensures k < |old(elems)| && old(elems)[k] == listelm
      ensures elems == Insert(old(elems), k + 1, elm)
    {
      hide Insert, Delete;
      k :| 0 <= k < |elems| && elems[k] == listelm;
      elm.next := listelm.next;
      if elm.next != null {
        elm.next.prev := NextOf(elm);
      } else {
        last := NextOf(elm);
      }
      listelm.next := elm;
      elm.prev := NextOf(listelm);
      elems := Insert(elems, k + 1, elm);
      LinkedInRepresents(this, old(elems), k + 1, elm);
    }

    method InsertBefore(listelm: Elem, elm: Elem) returns (ghost k: nat)
      requires Valid() && listelm in elems && elm !in elems
      modifies this, elems, elm
      ensures Valid()
      ensures k < |old(elems)| && old(elems)[k] == listelm
      ensures elems == Insert(old(elems), k, elm)
    {
      hide Insert, Delete;
      k :| 0 <= k < |elems| && elems[k] == listelm;
      elm.prev := listelm.prev;
      elm.next := listelm;
      Store(listelm.prev, elm);
      listelm.prev := NextOf(elm);
      elems := Insert(elems, k, elm);
      LinkedInRepresents(this, old(elems), k, elm);
    }

    /** The slot and the element that `x` points at belong to this queue, and are not its own. */
    ghost predicate Points(x: Elem)
      reads this, x
    {
      && x.prev != Wild && x.prev != NextOf(x) && x.next != x
      && (x.prev.FirstOf? ==> x.prev.head == this)
      && (x.prev.NextOf? ==> x.prev.elem in elems)
      && (x.next != null ==> x.next in elems)
    }

    /** The statements of TAILQ_REMOVE: what pointed at `x` now points past it. */
    method Bypass(x: Elem)
      requires Points(x)
      modifies this, elems, x
      ensures elems == old(elems) && x.next == old(x.next) && x.prev == old(x.prev)
      ensures first == if x.prev.FirstOf? then x.next else old(first)
      ensures last == if x.next == null then x.prev else old(last)
      ensures forall i {:trigger elems[i].next} :: 0 <= i < |elems| ==>
                elems[i].next == if x.prev == NextOf(elems[i]) then x.next else old(elems[i].next)
      ensures forall i {:trigger elems[i].prev} :: 0 <= i < |elems| ==>
                elems[i].prev == if x.next == elems[i] then x.prev else old(elems[i].prev)
    {
      if x.next != null {
        x.next.prev := x.prev;
      } else {
        last := x.prev;
      }
      Store(x.prev, x.next);
    }

    /** Removes `x`; repeated at once, it changes no link at all. */
    method Remove(x: Elem) returns (ghost k: nat)
      requires Valid() && (x in elems || JustRemoved(x))
      modifies this, elems, x
      ensures Valid() && JustRemoved(x)
      ensures x in old(elems) ==> k < |old(elems)| && old(elems)[k] == x
      ensures x in old(elems) ==> elems == Delete(old(elems), k)
      ensures x !in old(elems) ==> first == old(first) && last == old(last) && elems == old(elems)
      ensures x.next == old(x.next) && x.prev == old(x.prev)
      ensures x !in old(elems) ==> forall e :: e in elems ==> e.next == old(e.next) && e.prev == old(e.prev)
    {
      hide Insert, Delete;
      k :| 0 <= k <= |elems| && x.prev == SlotTo(this, elems, k) &&
           if x in elems then k < |elems| && elems[k] == x else x.next == At(elems, k);
      assert k < |elems| ==> elems[k].prev == SlotTo(this, elems, k);
      assert 0 < k ==> elems[k - 1].next == At(elems, k);
      Bypass(x);
      if x in elems {
        elems := Delete(elems, k);
        BypassedRepresents(this, old(elems), k);
      } else {
        assert forall i {:trigger elems[i].next} :: 0 <= i < |elems| ==> elems[i].next == old(elems[i].next);
        assert forall i {:trigger elems[i].prev} :: 0 <= i < |elems| ==> elems[i].prev == old(elems[i].prev);
      }
      assert x.prev == SlotTo(this, elems, k) && x.next == At(elems, k);
    }

    /** Moves the contents of `other` to the end of this queue. */
    method Concat(other: Head)
      requires Valid() && other.Valid() && other != this
      requires Disjoint(elems, other.elems)
      modifies this, other, elems, other.elems
      ensures Valid() && elems == old(elems) + old(other.elems)
      ensures other.Valid() && other.elems == []
    {
      if other.first != null {
        Store(last, other.first);
        other.first.prev := last;
        last := other.last;
        ChainedRepresents(this, elems, other.elems);
        elems := elems + other.elems;
        other.Init();
      } else {
        assert elems + other.elems == elems;
      }
    }

    /** TAILQ_LAST, through the type pun. */
    method Last() returns (e: Elem?)
      requires Valid()
      ensures e == if elems == [] then null else elems[|elems| - 1]
    {
      e := Load(LastOf(last));
    }

    /** TAILQ_PREV, through the type pun. */
    method Prev(elm: Elem, ghost k: nat) returns (e: Elem?)
      requires Valid() && k < |elems| && elems[k] == elm
      ensures e == if k == 0 then null else elems[k - 1]
    {
      e := Load(LastOf(elm.prev));
    }

    /** The elements that TAILQ_FOREACH visits. */
    method Foreach() returns (visited: seq<Elem>)
      requires Valid()
      ensures visited == elems
    {
      visited := [];
      var v := first;
      while v != null
        invariant visited <= elems && v == At(elems, |visited|)
        decreases |elems| - |visited|
      {
        visited := visited + [v];
        v := v.next;
      }
    }

    /** The elements that TAILQ_FOREACH_REVERSE visits. */
    method ForeachReverse() returns (visited: seq<Elem>)
      requires Valid()
      ensures |visited| == |elems|
      ensures forall i :: 0 <= i < |elems| ==> visited[i] == elems[|elems| - 1 - i]
    {
      visited := [];
      var v := Last();
      ghost var k := |elems|;
      while v != null
        invariant 0 <= k <= |elems| && |visited| == |elems| - k
        invariant v == if k == 0 then null else elems[k - 1]
        invariant forall i :: 0 <= i < |visited| ==> visited[i] == elems[|elems| - 1 - i]
        decreases k
      {
        visited := visited + [v];
        k := k - 1;
        v := Prev(v, k);
      }
    }
  }
}

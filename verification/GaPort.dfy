/**
 The service half of `getaddrinfo`: passes over a linked list of address
 structures that fill in socket types and ports and clone entries as they go.
 */
module GaPort {
  import opened Common

  datatype Family = Inet | Inet6 | Local

  const SOCK_STREAM := 1
  const SOCK_DGRAM := 2

  /** The contents of an `addrinfo` and of the socket address it points to. */
  datatype Entry = Entry(clone: bool, family: Family, socktype: int, protocol: int, host: nat, port: int)

  class SockAddr {
    const host: nat
    var port: int
    constructor (h: nat, p: int)
      ensures host == h && port == p
    {
      host, port := h, p;
    }
  }

  class AddrInfo {
    const clone: bool  // AI_CLONE
    const family: Family
    const protocol: int
    const addr: SockAddr
    var socktype: int
    var next: AddrInfo?
    constructor (clone: bool, family: Family, socktype: int, protocol: int, addr: SockAddr, next: AddrInfo?)
      ensures this.clone == clone && this.family == family && this.socktype == socktype
      ensures this.protocol == protocol && this.addr == addr && this.next == next
    {
      this.clone, this.family, this.socktype := clone, family, socktype;
      this.protocol, this.addr, this.next := protocol, addr, next;
    }

    function View(): Entry
      reads this, addr
    {
      Entry(clone, family, socktype, protocol, addr.host, addr.port)
    }
  }

  // ----- a pass, on values

  /** The socket type is set, and the port where the family has one. */
  function Stamp(e: Entry, port: int, t: int): Entry {
    e.(socktype := t, port := if e.family == Local then e.port else port)
  }

  function PassOne(e: Entry, port: int, t: int): seq<Entry> {
    if e.clone && e.socktype != 0 then [e, Stamp(e.(clone := false), port, t)]
    else if !e.clone && e.socktype != t then [e]
    else [Stamp(e, port, t)]
  }

  function FoundOne(e: Entry, t: int): nat {
    if e.family != Local && (e.clone || e.socktype == t) then 1 else 0
  }

  function Pass(es: seq<Entry>, port: int, t: int): seq<Entry> {
    if es == [] then [] else PassOne(es[0], port, t) + Pass(es[1..], port, t)
  }

  function Found(es: seq<Entry>, t: int): nat {
    if es == [] then 0 else FoundOne(es[0], t) + Found(es[1..], t)
  }

  lemma {:induction false} PassSnoc(es: seq<Entry>, e: Entry, port: int, t: int)
    ensures Pass(es + [e], port, t) == Pass(es, port, t) + PassOne(e, port, t)
    ensures Found(es + [e], t) == Found(es, t) + FoundOne(e, t)
  {
    if es == [] {
      assert es + [e] == [e];
    } else {
      assert (es + [e])[1..] == es[1..] + [e];
      PassSnoc(es[1..], e, port, t);
    }
  }

  lemma {:induction false} PassConcat(xs: seq<Entry>, ys: seq<Entry>, port: int, t: int)
    ensures Pass(xs + ys, port, t) == Pass(xs, port, t) + Pass(ys, port, t)
  {
    if xs == [] {
      assert xs + ys == ys;
    } else {
      assert (xs + ys)[1..] == xs[1..] + ys;
      PassConcat(xs[1..], ys, port, t);
    }
  }

  // ----- a pass, on the list

  ghost function At(ns: seq<AddrInfo>, i: nat): AddrInfo? {
    if i < |ns| then ns[i] else null
  }

  ghost predicate Unshared(ns: seq<AddrInfo>) {
    forall i, j :: 0 <= i < j < |ns| ==> ns[i] != ns[j] && ns[i].addr != ns[j].addr
  }

  /** `head` is the list `ns`; no entry occurs twice and no address is shared. */
  ghost predicate Linked(head: AddrInfo?, ns: seq<AddrInfo>)
    reads ns
  {
    && Unshared(ns)
    && head == At(ns, 0)
    && (forall i {:trigger ns[i].next} :: 0 <= i < |ns| ==> ns[i].next == At(ns, i + 1))
  }

  ghost function Addrs(ns: seq<AddrInfo>): set<SockAddr> {
    set i | 0 <= i < |ns| :: ns[i].addr
  }

  ghost predicate Shows(ns: seq<AddrInfo>, es: seq<Entry>)
    reads ns, Addrs(ns)
  {
    |ns| == |es| && forall i :: 0 <= i < |ns| ==> ns[i].View() == es[i]
  }

  /** All objects of the list are in `own`. */
  ghost predicate Owned(ns: seq<AddrInfo>, own: set<object>) {
    forall i :: 0 <= i < |ns| ==> ns[i] in own && ns[i].addr in own
  }

  /** `ga_clone`: a copy of `ai`, address and all, linked in after it. */
  method GaClone(ai: AddrInfo) returns (neu: AddrInfo)
    modifies ai`next
    ensures fresh(neu) && fresh(neu.addr)
    ensures neu.View() == ai.View().(clone := false)
    ensures neu.next == old(ai.next) && ai.next == neu
  {
    var addr := new SockAddr(ai.addr.host, ai.addr.port);
    neu := new AddrInfo(false, ai.family, ai.socktype, ai.protocol, addr, ai.next);
    ai.next := neu;
  }

  method StampEntry(ai: AddrInfo, port: int, t: int) returns (found: nat)
    modifies ai`socktype, ai.addr`port
    ensures ai.View() == Stamp(old(ai.View()), port, t)
    ensures found == if ai.family == Local then 0 else 1
  {
    ai.socktype := t;
    match ai.family
    case Inet => ai.addr.port := port; found := 1;
    case Inet6 => ai.addr.port := port; found := 1;
    case Local => found := 0;
  }

  function InsertAfter<T>(ns: seq<T>, i: nat, x: T): (r: seq<T>)
    requires i < |ns|
    ensures |r| == |ns| + 1
  {
    ns[..i + 1] + [x] + ns[i + 1..]
  }

  lemma InsertIndex<T>(ns: seq<T>, i: nat, x: T, k: nat)
    requires i < |ns| && k <= |ns|
    ensures InsertAfter(ns, i, x)[k] == if k <= i then ns[k] else if k == i + 1 then x else ns[k - 1]
  {
  }

  lemma InsertUnshared(ns: seq<AddrInfo>, i: nat, x: AddrInfo)
    requires Unshared(ns) && i < |ns| && x !in ns && x.addr !in Addrs(ns)
    ensures Unshared(InsertAfter(ns, i, x))
  {
  }

  /** A clone of entry `i`, and the list with it. */
  method CloneAt(head: AddrInfo?, ghost ns: seq<AddrInfo>, ghost es: seq<Entry>, ghost i: nat, ai: AddrInfo)
    returns (neu: AddrInfo)
    requires Linked(head, ns) && Shows(ns, es) && i < |ns| && ai == ns[i]
    modifies ai`next
    ensures fresh(neu) && fresh(neu.addr)
    ensures Linked(head, InsertAfter(ns, i, neu))
    ensures Shows(InsertAfter(ns, i, neu), InsertAfter(es, i, es[i].(clone := false)))
  {
    assert ai.View() == es[i];
    neu := GaClone(ai);
    ghost var t, u := InsertAfter(ns, i, neu), InsertAfter(es, i, es[i].(clone := false));
    InsertUnshared(ns, i, neu);
    InsertIndex(ns, i, neu, 0);
    forall k | 0 <= k < |t| ensures t[k].next == At(t, k + 1) && t[k].View() == u[k] {
      InsertIndex(ns, i, neu, k);
      InsertIndex(es, i, es[i].(clone := false), k);
      if k < |ns| { InsertIndex(ns, i, neu, k + 1); }
    }
  }

  /** Filling in entry `q` leaves the rest of the list alone. */
  method StampAt(head: AddrInfo?, ghost ns: seq<AddrInfo>, ghost es: seq<Entry>, ghost q: nat,
                 port: int, t: int, ai: AddrInfo)
    returns (found: nat)
    requires Linked(head, ns) && Shows(ns, es) && q < |ns| && ai == ns[q]
    modifies ai`socktype, ai.addr`port
    ensures Linked(head, ns) && Shows(ns, es[q := Stamp(es[q], port, t)])
    ensures found == if es[q].family == Local then 0 else 1
  {
    assert ai.View() == es[q];
    found := StampEntry(ai, port, t);
  }

  // The list between two iterations: the entries before `j` have been processed.

  function Midway(es: seq<Entry>, j: nat, port: int, t: int): seq<Entry>
    requires j <= |es|
  {
    Pass(es[..j], port, t) + es[j..]
  }

  /** The number of entries in front that have been processed, and of the ports found among them. */
  function Behind(es: seq<Entry>, j: nat, port: int, t: int): nat
    requires j <= |es|
  {
    |Pass(es[..j], port, t)|
  }

  function Sofar(es: seq<Entry>, j: nat, t: int): nat
    requires j <= |es|
  {
    Found(es[..j], t)
  }

  lemma MidwayStep(es: seq<Entry>, j: nat, port: int, t: int)
    requires j < |es|
    ensures var i, mid, e := Behind(es, j, port, t), Midway(es, j, port, t), es[j];
            && i < |mid| && mid[i] == e
            && Behind(es, j + 1, port, t) == i + |PassOne(e, port, t)|
            && Sofar(es, j + 1, t) == Sofar(es, j, t) + FoundOne(e, t)
            && Midway(es, j + 1, port, t) == mid[..i] + PassOne(e, port, t) + mid[i + 1..]
  {
    assert es[..j + 1] == es[..j] + [es[j]];
    PassSnoc(es[..j], es[j], port, t);
    assert es[j..] == [es[j]] + es[j + 1..];
  }

  lemma CloneThenStamp(mid: seq<Entry>, i: nat, port: int, t: int)
    requires i < |mid| && mid[i].clone && mid[i].socktype != 0
    ensures var c := mid[i].(clone := false);
            InsertAfter(mid, i, c)[i + 1 := Stamp(c, port, t)] == mid[..i] + PassOne(mid[i], port, t) + mid[i + 1..]
  {
  }

  lemma PutBack(mid: seq<Entry>, i: nat, e: Entry)
    requires i < |mid|
    ensures mid[i := e] == mid[..i] + [e] + mid[i + 1..]
    ensures mid[i := mid[i]] == mid
  {
  }

  lemma OwnedAt(ns: seq<AddrInfo>, own: set<object>, i: nat)
    requires Owned(ns, own) && i < |ns|
    ensures ns[i] in own && ns[i].addr in own
  {
  }

  lemma OwnedInsert(ns: seq<AddrInfo>, own: set<object>, i: nat, x: AddrInfo)
    requires Owned(ns, own) && i < |ns|
    ensures Owned(InsertAfter(ns, i, x), own + {x, x.addr})
  {
    forall k | 0 <= k <= |ns| ensures InsertAfter(ns, i, x)[k] in own + {x, x.addr} &&
                                      InsertAfter(ns, i, x)[k].addr in own + {x, x.addr} {
      InsertIndex(ns, i, x, k);
    }
  }

  /** One iteration of `ga_port`, at entry `i` of the list. */
  method Visit(head: AddrInfo?, ghost ns: seq<AddrInfo>, ghost own: set<object>, ghost mid: seq<Entry>, ghost i: nat,
               port: int, t: int, at: AddrInfo)
    returns (next: AddrInfo?, found: nat, ghost ns': seq<AddrInfo>, ghost own': set<object>)
    requires Owned(ns, own) && Linked(head, ns) && Shows(ns, mid) && i < |ns| && at == ns[i]
    modifies at, at.addr
    ensures Linked(head, ns') && Shows(ns', mid[..i] + PassOne(mid[i], port, t) + mid[i + 1..])
    ensures next == At(ns', i + |PassOne(mid[i], port, t)|)
    ensures found == FoundOne(mid[i], t)
    ensures Owned(ns', own') && own <= own' && fresh(own' - own)
  {
    var ai := at;
    ns', own' := ns, own;
    assert at.View() == mid[i];
    ghost var q, cur := i, mid;
    hide Shows, Linked, Owned, InsertAfter;
    if ai.clone {
      if ai.socktype != 0 {
        CloneThenStamp(mid, i, port, t);
        ai := CloneAt(head, ns', mid, i, ai);
        OwnedInsert(ns, own, i, ai);
        ns', own' := InsertAfter(ns, i, ai), own + {ai, ai.addr};
        q, cur := i + 1, InsertAfter(mid, i, mid[i].(clone := false));
        InsertIndex(ns, i, ai, i + 1);
        InsertIndex(mid, i, mid[i].(clone := false), i + 1);
      }
    } else if ai.socktype != t {
      LinkedNext(head, ns', i);
      PutBack(mid, i, mid[i]);
      return ai.next, 0, ns', own';
    }
    PutBack(mid, i, Stamp(mid[i], port, t));
    found := StampAt(head, ns', cur, q, port, t, ai);
    LinkedNext(head, ns', q);
    next := ai.next;
  }

  lemma LinkedNext(head: AddrInfo?, ns: seq<AddrInfo>, k: nat)
    requires Linked(head, ns) && k < |ns|
    ensures ns[k].next == At(ns, k + 1)
  {
  }

  /** The walk is at the image of entry `j` of the list it started with. */
  ghost predicate Walking(head: AddrInfo?, ns: seq<AddrInfo>, own: set<object>,
                          es: seq<Entry>, j: nat, port: int, t: int, ai: AddrInfo?)
    reads ns, Addrs(ns)
  {
    && j <= |es| && Owned(ns, own) && Linked(head, ns)
    && Shows(ns, Midway(es, j, port, t)) && ai == At(ns, Behind(es, j, port, t))
  }

  /** One iteration, from entry `j` to entry `j + 1`. */
  method Advance(head: AddrInfo?, ghost ns: seq<AddrInfo>, ghost own: set<object>,
                 ghost es: seq<Entry>, ghost j: nat, port: int, t: int, at: AddrInfo)
    returns (next: AddrInfo?, found: nat, ghost ns': seq<AddrInfo>, ghost own': set<object>)
    requires Walking(head, ns, own, es, j, port, t, at)
    modifies at, at.addr
    ensures j < |es| && Walking(head, ns', own', es, j + 1, port, t, next)
    ensures found == FoundOne(es[j], t)
    ensures own <= own' && fresh(own' - own)
  {
    hide Linked, Shows, Midway, PassOne, FoundOne, Owned, Behind;
    MidwayLength(ns, es, j, port, t);
    MidwayStep(es, j, port, t);
    next, found, ns', own' := Visit(head, ns, own, Midway(es, j, port, t), Behind(es, j, port, t), port, t, at);
  }

  lemma WalkingStart(head: AddrInfo?, ns: seq<AddrInfo>, own: set<object>, es: seq<Entry>, port: int, t: int)
    requires Owned(ns, own) && Linked(head, ns) && Shows(ns, es)
    ensures Walking(head, ns, own, es, 0, port, t, head)
  {
    MidwayStart(es, port, t);
  }

  lemma WalkingAt(head: AddrInfo?, ns: seq<AddrInfo>, own: set<object>,
                  es: seq<Entry>, j: nat, port: int, t: int, ai: AddrInfo?)
    requires Walking(head, ns, own, es, j, port, t, ai)
    ensures ai != null ==> ai in own && ai.addr in own && j < |es|
    ensures ai == null ==> j == |es| && Owned(ns, own) && Linked(head, ns) && Shows(ns, Pass(es, port, t))
  {
    MidwayLength(ns, es, j, port, t);
    if ai == null {
      MidwayEnd(es, port, t);
    } else {
      OwnedAt(ns, own, Behind(es, j, port, t));
    }
  }

  /** `ga_port`: the walk terminates although the list grows under it. */
  method GaPort(head: AddrInfo?, port: int, t: int,
                ghost ns: seq<AddrInfo>, ghost own: set<object>, ghost es: seq<Entry>)
    returns (nfound: nat, ghost ns': seq<AddrInfo>, ghost own': set<object>)
    requires Owned(ns, own) && Linked(head, ns) && Shows(ns, es)
    modifies own
    ensures Linked(head, ns') && Shows(ns', Pass(es, port, t))
    ensures nfound == Found(es, t)
    ensures Owned(ns', own') && own <= own' && fresh(own' - own)
  {
    hide Walking, Linked, Shows, Owned, Sofar, FoundOne;
    nfound := 0;
    ns', own' := ns, own;
    var ai := head;
    ghost var j: nat := 0;
    MidwayStart(es, port, t);
    WalkingStart(head, ns, own, es, port, t);
    while ai != null
      invariant j <= |es| && Walking(head, ns', own', es, j, port, t, ai)
      invariant nfound == Sofar(es, j, t)
      invariant own <= own' && fresh(own' - own)
      decreases |es| - j
    {
      WalkingAt(head, ns', own', es, j, port, t, ai);
      MidwayStep(es, j, port, t);
      var found;
      ai, found, ns', own' := Advance(head, ns', own', es, j, port, t, ai);
      nfound := nfound + found;
      j := j + 1;
    }
    WalkingAt(head, ns', own', es, j, port, t, ai);
    MidwayEnd(es, port, t);
  }

  lemma MidwayLength(ns: seq<AddrInfo>, es: seq<Entry>, j: nat, port: int, t: int)
    requires j <= |es| && Shows(ns, Midway(es, j, port, t))
    ensures |ns| == Behind(es, j, port, t) + |es| - j
  {
  }

  lemma MidwayEnd(es: seq<Entry>, port: int, t: int)
    ensures Midway(es, |es|, port, t) == Pass(es, port, t) && Sofar(es, |es|, t) == Found(es, t)
  {
    assert es[..|es|] == es;
  }

  lemma MidwayStart(es: seq<Entry>, port: int, t: int)
    ensures Midway(es, 0, port, t) == es && Behind(es, 0, port, t) == 0 && Sofar(es, 0, t) == 0
  {
  }

  // ----- several passes

  /** A socket type and the port to give to its entries. */
  datatype Service = Service(t: int, port: int)

  function Passes(es: seq<Entry>, ps: seq<Service>): seq<Entry> {
    if ps == [] then es
    else
      var n := |ps| - 1;
      Pass(Passes(es, ps[..n]), ps[n].port, ps[n].t)
  }

  /** The clones of a host's entry for the given services, latest first. */
  function Clones(h: Entry, ps: seq<Service>): seq<Entry> {
    if ps == [] then []
    else
      var n := |ps| - 1;
      [Stamp(h.(clone := false), ps[n].port, ps[n].t)] + Clones(h, ps[..n])
  }

  /** What becomes of one host: its own entry takes the first service. */
  function Block(h: Entry, ps: seq<Service>): seq<Entry>
    requires ps != []
  {
    [Stamp(h, ps[0].port, ps[0].t)] + Clones(h, ps[1..])
  }

  function Blocks(hs: seq<Entry>, ps: seq<Service>): seq<Entry>
    requires ps != []
  {
    if hs == [] then [] else Block(hs[0], ps) + Blocks(hs[1..], ps)
  }

  /** As the host search leaves the list when no socket type is asked for. */
  ghost predicate Untyped(hs: seq<Entry>) {
    forall i :: 0 <= i < |hs| ==> hs[i].clone && hs[i].socktype == 0
  }

  ghost predicate DistinctTypes(ps: seq<Service>) {
    && (forall i :: 0 <= i < |ps| ==> ps[i].t != 0)
    && forall i, j :: 0 <= i < j < |ps| ==> ps[i].t != ps[j].t
  }

  lemma {:induction false} PassIgnoresClones(h: Entry, ps: seq<Service>, port: int, t: int)
    requires forall i :: 0 <= i < |ps| ==> ps[i].t != t
    ensures Pass(Clones(h, ps), port, t) == Clones(h, ps)
  {
    if ps != [] {
      var n := |ps| - 1;
      PassIgnoresClones(h, ps[..n], port, t);
      var c := Clones(h, ps);
      assert c[0] == Stamp(h.(clone := false), ps[n].port, ps[n].t) && c[1..] == Clones(h, ps[..n]);
      assert PassOne(c[0], port, t) == [c[0]];
    }
  }

  lemma PassCons(e: Entry, es: seq<Entry>, port: int, t: int)
    ensures Pass([e] + es, port, t) == PassOne(e, port, t) + Pass(es, port, t)
  {
    assert ([e] + es)[1..] == es;
  }

  lemma ClonesSnoc(h: Entry, ps: seq<Service>, p: Service)
    ensures Clones(h, ps + [p]) == [Stamp(h.(clone := false), p.port, p.t)] + Clones(h, ps)
  {
    assert (ps + [p])[..|ps|] == ps;
  }

  lemma TypesApart(ps: seq<Service>, p: Service)
    requires ps != [] && DistinctTypes(ps + [p])
    ensures ps[0].t != 0 && (ps + [p])[0] == ps[0] && (ps + [p])[1..] == ps[1..] + [p]
    ensures forall i :: 0 <= i < |ps[1..]| ==> ps[1..][i].t != p.t
  {
    var all := ps + [p];
    assert all[0] == ps[0];
    forall i | 0 <= i < |ps[1..]| ensures ps[1..][i].t != p.t {
      assert all[i + 1] == ps[1..][i] && all[|ps|] == p;
    }
  }

  /** An entry that may be cloned and has a type gives itself and a clone. */
  lemma PassStamped(h: Entry, p0: Service, p: Service)
    requires h.clone && p0.t != 0
    ensures PassOne(Stamp(h, p0.port, p0.t), p.port, p.t)
         == [Stamp(h, p0.port, p0.t), Stamp(h.(clone := false), p.port, p.t)]
  {
  }

  lemma TwoThenRest(e: Entry, c: Entry, cs: seq<Entry>)
    ensures [e, c] + cs == [e] + ([c] + cs)
  {
  }

  lemma PassBlock(h: Entry, ps: seq<Service>, p: Service)
    requires h.clone && ps != [] && DistinctTypes(ps + [p])
    ensures Pass(Block(h, ps), p.port, p.t) == Block(h, ps + [p])
  {
    hide DistinctTypes, Pass, Clones, Stamp, PassOne;
    TypesApart(ps, p);
    var e, c, rest := Stamp(h, ps[0].port, ps[0].t), Stamp(h.(clone := false), p.port, p.t), ps[1..];
    PassStamped(h, ps[0], p);
    PassIgnoresClones(h, rest, p.port, p.t);
    PassCons(e, Clones(h, rest), p.port, p.t);
    ClonesSnoc(h, rest, p);
    TwoThenRest(e, c, Clones(h, rest));
  }

  lemma {:induction false} PassBlocks(hs: seq<Entry>, ps: seq<Service>, p: Service)
    requires Untyped(hs) && ps != [] && DistinctTypes(ps + [p])
    ensures Pass(Blocks(hs, ps), p.port, p.t) == Blocks(hs, ps + [p])
  {
    if hs != [] {
      PassConcat(Block(hs[0], ps), Blocks(hs[1..], ps), p.port, p.t);
      PassBlock(hs[0], ps, p);
      PassBlocks(hs[1..], ps, p);
    }
  }

  lemma {:induction false} FirstPass(hs: seq<Entry>, p: Service)
    requires Untyped(hs)
    ensures Pass(hs, p.port, p.t) == Blocks(hs, [p])
  {
    if hs != [] {
      FirstPass(hs[1..], p);
      assert Block(hs[0], [p]) == [Stamp(hs[0], p.port, p.t)];
    }
  }

  /**
   For any hosts and any services with distinct nonzero socket types, each
   host in turn gets the types t1, tk, ..., t2, every one with its own port.
   */
  lemma {:induction false} PassesAreBlocks(hs: seq<Entry>, ps: seq<Service>)
    requires Untyped(hs) && ps != [] && DistinctTypes(ps)
    ensures Passes(hs, ps) == Blocks(hs, ps)
    decreases |ps|
  {
    var n := |ps| - 1;
    assert ps == ps[..n] + [ps[n]];
    if n == 0 {
      assert ps == [ps[0]] && ps[..0] == [];
      FirstPass(hs, ps[0]);
    } else {
      PassesAreBlocks(hs, ps[..n]);
      PassBlocks(hs, ps[..n], ps[n]);
    }
  }

  // ----- the service string

  datatype Query = Number(port: int) | Name(tcp: Option<int>, udp: Option<int>)

  datatype Code = Ok | NoName | ServiceUnsupported

  /** The first pass of `ga_serv`, if it makes one: a given type, or TCP. */
  function First(hint: int, q: Query): seq<Service> {
    match q
    case Number(port) => [Service(if hint != 0 then hint else SOCK_STREAM, port)]
    case Name(tcp, _) =>
      if (hint == 0 || hint == SOCK_STREAM) && tcp.Some? then [Service(SOCK_STREAM, tcp.value)] else []
  }

  /** Its second pass: UDP. */
  function Second(hint: int, q: Query): seq<Service> {
    match q
    case Number(port) => if hint != 0 then [] else [Service(SOCK_DGRAM, port)]
    case Name(_, udp) =>
      if (hint == 0 || hint == SOCK_DGRAM) && udp.Some? then [Service(SOCK_DGRAM, udp.value)] else []
  }

  function Plan(hint: int, q: Query): seq<Service> { First(hint, q) + Second(hint, q) }

  /** For each host in order, its stream entry and then its datagram entry. */
  function Pairs(hs: seq<Entry>, tcp: int, udp: int): seq<Entry> {
    if hs == [] then []
    else
      var h := hs[0];
      [Entry(h.clone, h.family, SOCK_STREAM, h.protocol, h.host, if h.family == Local then h.port else tcp),
       Entry(false, h.family, SOCK_DGRAM, h.protocol, h.host, if h.family == Local then h.port else udp)] +
      Pairs(hs[1..], tcp, udp)
  }

  lemma {:induction false} BlocksArePairs(hs: seq<Entry>, tcp: int, udp: int)
    ensures Blocks(hs, [Service(SOCK_STREAM, tcp), Service(SOCK_DGRAM, udp)]) == Pairs(hs, tcp, udp)
  {
    if hs != [] {
      var ps, h := [Service(SOCK_STREAM, tcp), Service(SOCK_DGRAM, udp)], hs[0];
      BlocksArePairs(hs[1..], tcp, udp);
      assert ps[1..] == [ps[1]] && ps[1..][..0] == [];
      assert Clones(h, []) == [];
      assert Block(h, ps) == [Stamp(h, tcp, SOCK_STREAM), Stamp(h.(clone := false), udp, SOCK_DGRAM)];
    }
  }

  /** The two ports that `ga_serv` uses when the caller gives no socket type. */
  function Ports(q: Query): Option<(int, int)> {
    match q
    case Number(port) => Some((port, port))
    case Name(Some(tcp), Some(udp)) => Some((tcp, udp))
    case Name(_, _) => None
  }

  /** With no socket type given, every host gets a stream and then a datagram entry, as documented. */
  lemma StreamThenDgram(hs: seq<Entry>, q: Query)
    requires Untyped(hs) && Ports(q).Some?
    ensures Passes(hs, Plan(0, q)) == Pairs(hs, Ports(q).value.0, Ports(q).value.1)
  {
    var (tcp, udp) := Ports(q).value;
    var ps := [Service(SOCK_STREAM, tcp), Service(SOCK_DGRAM, udp)];
    assert Plan(0, q) == ps;
    PassesAreBlocks(hs, ps);
    BlocksArePairs(hs, tcp, udp);
  }

  /** No entry may be cloned, as when the caller gives a socket type. */
  ghost predicate Typed(hs: seq<Entry>) {
    forall i :: 0 <= i < |hs| ==> !hs[i].clone
  }

  /** On such a list a pass sets the port of the Internet entries of its type, and changes nothing else. */
  lemma {:induction false} PassTyped(hs: seq<Entry>, port: int, t: int)
    requires Typed(hs)
    ensures var r := Pass(hs, port, t);
            |r| == |hs| && forall i :: 0 <= i < |hs| ==>
              r[i] == if hs[i].socktype == t && hs[i].family != Local then hs[i].(port := port) else hs[i]
  {
    if hs != [] {
      PassTyped(hs[1..], port, t);
      var r := Pass(hs, port, t);
      assert r[0] == PassOne(hs[0], port, t)[0] && r[1..] == Pass(hs[1..], port, t);
      assert forall i :: 1 <= i < |hs| ==> hs[i] == hs[1..][i - 1] && r[i] == r[1..][i - 1];
    }
  }

  /** The port that a service gives to entries of the socket type `hint`. */
  function PortFor(hint: int, q: Query): Option<int> {
    match q
    case Number(port) => Some(port)
    case Name(tcp, udp) => if hint == SOCK_STREAM then tcp else if hint == SOCK_DGRAM then udp else None
  }

  /** With a socket type given, its entries get the service's port, and without a port nothing is done. */
  lemma HintedPorts(hs: seq<Entry>, hint: int, q: Query)
    requires Typed(hs) && hint != 0
    ensures var r := Passes(hs, Plan(hint, q));
            |r| == |hs| && forall i :: 0 <= i < |hs| ==>
              r[i] == if hs[i].socktype == hint && hs[i].family != Local && PortFor(hint, q).Some?
                      then hs[i].(port := PortFor(hint, q).value) else hs[i]
  {
    var p := PortFor(hint, q);
    if p.Some? {
      var ps := [Service(hint, p.value)];
      assert Plan(hint, q) == ps && ps[..0] == [];
      assert Passes(hs, ps) == Pass(hs, p.value, hint);
      PassTyped(hs, p.value, hint);
    }
  }

  function FoundBy(es: seq<Entry>, ps: seq<Service>): nat {
    if ps == [] then 0
    else
      var n := |ps| - 1;
      FoundBy(es, ps[..n]) + Found(Passes(es, ps[..n]), ps[n].t)
  }

  /** Ports are found exactly when a port is known and some entry has the type and can hold it. */
  lemma FoundHinted(hs: seq<Entry>, hint: int, q: Query)
    requires Typed(hs) && hint != 0
    ensures 0 < FoundBy(hs, Plan(hint, q)) <==>
              PortFor(hint, q).Some? && exists e :: e in hs && e.socktype == hint && e.family != Local
  {
    var p := PortFor(hint, q);
    FoundPositive(hs, hint);
    if p.Some? {
      var ps := [Service(hint, p.value)];
      assert Plan(hint, q) == ps && ps[..0] == [] && Passes(hs, []) == hs;
      assert FoundBy(hs, ps) == FoundBy(hs, []) + Found(hs, hint);
    }
  }

  /** The entry is one that a pass for type `t` counts. */
  predicate Counts(e: Entry, t: int) { e.family != Local && (e.clone || e.socktype == t) }

  lemma {:induction false} FoundPositive(es: seq<Entry>, t: int)
    ensures 0 < Found(es, t) <==> exists e :: e in es && Counts(e, t)
  {
    if es != [] {
      FoundPositive(es[1..], t);
      assert Counts(es[0], t) ==> es[0] in es;
      if e :| e in es[1..] && Counts(e, t) { assert e in es; }
    }
  }

  /** One pass of `ga_serv` after those in `ps`, or none. */
  method OnePass(head: AddrInfo?, want: seq<Service>, ghost ns: seq<AddrInfo>, ghost own: set<object>,
                 ghost es: seq<Entry>, ghost ps: seq<Service>)
    returns (rc: nat, ghost ns': seq<AddrInfo>, ghost own': set<object>)
    requires Owned(ns, own) && Linked(head, ns) && Shows(ns, Passes(es, ps)) && |want| <= 1
    modifies own
    ensures Owned(ns', own') && own <= own' && fresh(own' - own)
    ensures Linked(head, ns') && Shows(ns', Passes(es, ps + want))
    ensures FoundBy(es, ps + want) == FoundBy(es, ps) + rc
  {
    if want == [] {
      assert ps + want == ps;
      return 0, ns, own;
    }
    assert (ps + want)[..|ps|] == ps;
    rc, ns', own' := GaPort(head, want[0].port, want[0].t, ns, own, Passes(es, ps));
  }

  lemma PlanParts(es: seq<Entry>, hint: int, q: Query)
    ensures Passes(es, []) == es && FoundBy(es, []) == 0
    ensures |First(hint, q)| <= 1 && |Second(hint, q)| <= 1
    ensures [] + First(hint, q) == First(hint, q) && Plan(hint, q) == First(hint, q) + Second(hint, q)
  {
  }

  /** The passes of `ga_serv`, and how many ports they filled in. */
  method MakePasses(head: AddrInfo?, hint: int, q: Query,
                    ghost ns: seq<AddrInfo>, ghost own: set<object>, ghost es: seq<Entry>)
    returns (nfound: nat, ghost ns': seq<AddrInfo>, ghost own': set<object>)
    requires Owned(ns, own) && Linked(head, ns) && Shows(ns, es)
    modifies own
    ensures Owned(ns', own') && own <= own' && fresh(own' - own)
    ensures Linked(head, ns') && Shows(ns', Passes(es, Plan(hint, q)))
    ensures nfound == FoundBy(es, Plan(hint, q))
  {
    hide Linked, Shows, Owned, Passes, FoundBy, First, Second, Plan;
    var first, second := First(hint, q), Second(hint, q);
    PlanParts(es, hint, q);
    nfound, ns', own' := OnePass(head, first, ns, own, es, []);
    var rc;
    rc, ns', own' := OnePass(head, second, ns', own', es, first);
    nfound := nfound + rc;
  }

  method GaServ(head: AddrInfo?, hint: int, q: Query,
                ghost ns: seq<AddrInfo>, ghost own: set<object>, ghost es: seq<Entry>)
    returns (code: Code, ghost ns': seq<AddrInfo>, ghost own': set<object>)
    requires Owned(ns, own) && Linked(head, ns) && Shows(ns, es)
    modifies own
    ensures Owned(ns', own') && own <= own' && fresh(own' - own)
    ensures Linked(head, ns') && Shows(ns', Passes(es, Plan(hint, q)))
    ensures hint == 0 && Untyped(es) && Ports(q).Some? ==>
              Shows(ns', Pairs(es, Ports(q).value.0, Ports(q).value.1))
    ensures hint != 0 && Typed(es) ==>
              (code == Ok <==> PortFor(hint, q).Some? && exists e :: e in es && e.socktype == hint && e.family != Local)
    ensures code == if FoundBy(es, Plan(hint, q)) > 0 then Ok else if hint == 0 then NoName else ServiceUnsupported
  {
    hide Linked, Shows, Owned, Untyped, Typed, PortFor, FoundBy;
    var nfound;
    nfound, ns', own' := MakePasses(head, hint, q, ns, own, es);
    if hint == 0 && Untyped(es) && Ports(q).Some? {
      StreamThenDgram(es, q);
    }
    if hint != 0 && Typed(es) {
      FoundHinted(es, hint, q);
    }
    if nfound == 0 {
      return if hint == 0 then NoName else ServiceUnsupported, ns', own';
    }
    return Ok, ns', own';
  }
}

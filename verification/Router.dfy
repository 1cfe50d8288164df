/** Longest-prefix forwarding (router.cc; section 5.2.4.3 of RFC 1812), as values. */
module RouterModel {
  import opened Numbers
  import opened Options
  import opened Ipv4
  import opened NetCodec
  import N = InterfaceModel

  type PrefixLength = x: int | 0 <= x <= 32

  datatype Route = Route(prefix: u32, length: PrefixLength, nextHop: Option<u32>, port: nat)

  /** An interface with the datagrams received on it and not yet routed. */
  datatype Port = Port(nic: N.Interface, inbox: seq<Datagram>)

  /** The largest multiple of m up to x. */
  function Cleared(x: nat, m: nat): (r: nat)
    requires m > 0
    ensures r <= x
  {
    x - x % m
  }

  /** The address with all but its first length bits cleared. */
  function Masked(address: u32, length: PrefixLength): u32 {
    if length == 0 then 0 else Cleared(address, Pow2(32 - length))
  }

  /** The test of line 44: the route's own prefix is not masked. */
  predicate Matches(r: Route, dst: u32) { Masked(dst, r.length) == r.prefix }

  lemma ClearedIs(x: nat, y: nat, m: nat)
    requires m > 0
    ensures Cleared(x, m) == y <==> (y % m == 0 && x / m == y / m)
  {
    assert x == m * (x / m) + x % m;
    assert y == m * (y / m) + y % m;
    if Cleared(x, m) == y {
      Quotient(y, m, x / m, 0);
    }
  }

  /** A route matches exactly when its first length bits are the destination's and its other bits are zero. */
  lemma MatchesIff(r: Route, dst: u32)
    ensures Matches(r, dst) <==>
            (r.prefix % Pow2(32 - r.length) == 0 && dst / Pow2(32 - r.length) == r.prefix / Pow2(32 - r.length))
  {
    var m := Pow2(32 - r.length);
    if r.length == 0 {
      Pow2Of32();
      assert m == TWO_32;
      assert dst / m == 0 && r.prefix / m == 0 && r.prefix % m == r.prefix;
    } else {
      ClearedIs(dst, r.prefix, m);
    }
  }

  lemma Pow2Of32()
    ensures Pow2(32) == TWO_32
  {
    assert Pow2(8) == 256;
    assert Pow2(16) == 0x1_0000;
    assert Pow2(24) == 0x100_0000;
  }

  /** Route i applies, no route that applies is longer, and none before it is as long. */
  ghost predicate Best(table: seq<Route>, dst: u32, i: int) {
    && 0 <= i < |table| && Matches(table[i], dst)
    && (forall j :: 0 <= j < |table| && Matches(table[j], dst) ==> table[j].length <= table[i].length)
    && (forall j :: 0 <= j < i && Matches(table[j], dst) ==> table[j].length < table[i].length)
  }

  /** The route that forwarding takes, if any. */
  function Choose(table: seq<Route>, dst: u32): (c: Option<nat>)
    ensures c.Some? ==> Best(table, dst, c.value)
    ensures c.None? ==> forall j :: 0 <= j < |table| ==> !Matches(table[j], dst)
  {
    if table == [] then None
    else
      var n := |table| - 1;
      var before := Choose(table[..n], dst);
      if Matches(table[n], dst) && (before.None? || table[before.value].length < table[n].length) then Some(n)
      else before
  }

  lemma BestIsUnique(table: seq<Route>, dst: u32, i: int, j: int)
    requires Best(table, dst, i) && Best(table, dst, j)
    ensures i == j
  {
  }

  lemma EqualLengthEqualPrefix(r: Route, s: Route, dst: u32)
    requires Matches(r, dst) && Matches(s, dst) && r.length == s.length
    ensures r.prefix == s.prefix
  {
  }

  /** No two routes of the table are for the same prefix. */
  ghost predicate Distinct(table: seq<Route>) {
    forall i, j :: 0 <= i < j < |table| ==>
      table[i].prefix != table[j].prefix || table[i].length != table[j].length
  }

  /** The decision for a destination, without the position it was found at. */
  function Decision(table: seq<Route>, dst: u32): (d: Option<Route>)
    ensures d.None? <==> forall r :: r in table ==> !Matches(r, dst)
    ensures d.Some? ==> d.value in table && Matches(d.value, dst)
    ensures d.Some? ==> forall r :: r in table && Matches(r, dst) ==> r.length <= d.value.length
  {
    var c := Choose(table, dst);
    if c.Some? then Some(table[c.value]) else None
  }

  // ---- Order of the routes ----

  /** r applies, and no route that applies is longer. */
  ghost predicate Longest(table: seq<Route>, dst: u32, r: Route) {
    && r in table && Matches(r, dst)
    && forall s :: s in table && Matches(s, dst) ==> s.length <= r.length
  }

  /** Every order in which the routes may have been added gives the same decision. */
  ghost predicate OrderFree(table: seq<Route>, dst: u32) {
    forall other: seq<Route> :: multiset(other) == multiset(table) ==> Decision(other, dst) == Decision(table, dst)
  }

  lemma SameRoutes(table: seq<Route>, other: seq<Route>)
    requires multiset(table) == multiset(other)
    ensures forall r :: r in table <==> r in other
  {
    assert forall r :: r in table <==> r in multiset(table);
    assert forall r :: r in other <==> r in multiset(other);
  }

  /** The longest applicable routes can each be made the decision, by adding them first. */
  lemma FirstIsChosen(table: seq<Route>, dst: u32, r: Route) returns (other: seq<Route>)
    requires Longest(table, dst, r)
    ensures multiset(other) == multiset(table) && Decision(other, dst) == Some(r)
  {
    var i :| 0 <= i < |table| && table[i] == r;
    other := [r] + table[..i] + table[i + 1..];
    assert table == table[..i] + [r] + table[i + 1..];
    SameRoutes(table, other);
    assert forall j :: 0 <= j < |other| ==> other[j] in table;
    assert Best(other, dst, 0);
    var c := Choose(other, dst);
    assert c.Some? by {
      assert Matches(other[0], dst);
    }
    BestIsUnique(other, dst, 0, c.value);
  }

  /** The order of the routes does not matter if and only if all longest applicable routes are the same. */
  lemma OrderFreeIff(table: seq<Route>, dst: u32)
    ensures OrderFree(table, dst) <==> forall r, s :: Longest(table, dst, r) && Longest(table, dst, s) ==> r == s
  {
    if OrderFree(table, dst) {
      forall r, s | Longest(table, dst, r) && Longest(table, dst, s)
        ensures r == s
      {
        var first := FirstIsChosen(table, dst, r);
        var second := FirstIsChosen(table, dst, s);
        assert Decision(first, dst) == Decision(table, dst) == Decision(second, dst);
      }
    }
    if forall r, s :: Longest(table, dst, r) && Longest(table, dst, s) ==> r == s {
      forall other: seq<Route> | multiset(other) == multiset(table)
        ensures Decision(other, dst) == Decision(table, dst)
      {
        SameRoutes(table, other);
        var d, e := Decision(table, dst), Decision(other, dst);
        if d.Some? {
          assert Longest(table, dst, d.value) && Longest(table, dst, e.value);
        }
      }
    }
  }

  /** In particular, with distinct prefixes the order never matters, for any destination. */
  lemma DecisionIgnoresOrder(table: seq<Route>, dst: u32)
    requires Distinct(table)
    ensures OrderFree(table, dst)
  {
    forall r, s | Longest(table, dst, r) && Longest(table, dst, s)
      ensures r == s
    {
      EqualLengthEqualPrefix(r, s, dst);
      var i :| 0 <= i < |table| && table[i] == r;
      var j :| 0 <= j < |table| && table[j] == s;
      assert i == j;
    }
    OrderFreeIff(table, dst);
  }

  /** Of two routes for one prefix the one added first wins, so the order matters unless they are the same. */
  lemma RepeatedPrefixFirstWins(r: Route, s: Route, dst: u32)
    requires Matches(r, dst) && r.prefix == s.prefix && r.length == s.length
    ensures Decision([r, s], dst) == Some(r) && Decision([s, r], dst) == Some(s)
    ensures r != s ==> multiset([r, s]) == multiset([s, r]) && Decision([r, s], dst) != Decision([s, r], dst)
  {
    assert Matches([r, s][0], dst) && Matches([s, r][0], dst);
  }

  // ---- Forwarding ----

  /** A datagram as it leaves, and where it is sent. */
  datatype Forwarding = Forwarding(port: nat, dgram: Datagram, hop: u32)

  function Forward(table: seq<Route>, d: Datagram): (f: Option<Forwarding>)
    ensures f.Some? ==> f.value.dgram.header.ttl == d.header.ttl - 1 && f.value.dgram.header.ttl >= 1
    ensures f.Some? ==> f.value.dgram == d.(header := d.header.(ttl := f.value.dgram.header.ttl))
    ensures f.None? <==> d.header.ttl <= 1 || forall r :: r in table ==> !Matches(r, d.header.dst)
  {
    if d.header.ttl <= 1 then None
    else
      match Decision(table, d.header.dst)
      case None => None
      case Some(r) =>
        var hop := if r.nextHop.Some? then r.nextHop.value else d.header.dst;
        Some(Forwarding(r.port, d.(header := d.header.(ttl := d.header.ttl - 1)), hop))
  }

  /** What is forwarded goes to a longest applicable route's interface, for its next hop or else the destination. */
  lemma ForwardFollowsRoute(table: seq<Route>, d: Datagram) returns (r: Route)
    requires Forward(table, d).Some?
    ensures Longest(table, d.header.dst, r)
    ensures var f := Forward(table, d).value;
            && f.port == r.port
            && (r.nextHop.Some? ==> f.hop == r.nextHop.value) && (r.nextHop.None? ==> f.hop == d.header.dst)
  {
    r := Decision(table, d.header.dst).value;
  }

  ghost predicate TableFits(table: seq<Route>, ports: nat) {
    forall r :: r in table ==> r.port < ports
  }

  lemma ForwardFits(table: seq<Route>, d: Datagram, ports: nat)
    requires TableFits(table, ports)
    ensures Forward(table, d).Some? ==> Forward(table, d).value.port < ports
  {
  }

  /** route_one_datagram, on the interfaces. */
  function RouteOne(table: seq<Route>, nics: seq<N.Interface>, d: Datagram): (r: seq<N.Interface>)
    requires TableFits(table, |nics|)
    ensures |r| == |nics|
  {
    match Forward(table, d)
    case None => nics
    case Some(f) =>
      ForwardFits(table, d, |nics|);
      nics[f.port := N.SendDatagram(nics[f.port], f.dgram, f.hop)]
  }

  function RouteEach(table: seq<Route>, nics: seq<N.Interface>, ds: seq<Datagram>): (r: seq<N.Interface>)
    requires TableFits(table, |nics|)
    ensures |r| == |nics|
  {
    if ds == [] then nics
    else RouteOne(table, RouteEach(table, nics, ds[..|ds| - 1]), ds[|ds| - 1])
  }

  lemma {:induction false} RouteEachAppend(table: seq<Route>, nics: seq<N.Interface>,
                                           ds: seq<Datagram>, es: seq<Datagram>)
    requires TableFits(table, |nics|)
    ensures RouteEach(table, nics, ds + es) == RouteEach(table, RouteEach(table, nics, ds), es)
    decreases |es|
  {
    if es == [] {
      assert ds + es == ds;
    } else {
      var n := |es| - 1;
      RouteEachAppend(table, nics, ds, es[..n]);
      assert (ds + es)[..|ds + es| - 1] == ds + es[..n];
    }
  }

  /** Everything received and not yet routed, in the order it is taken. */
  function Arrivals(ports: seq<Port>): seq<Datagram> {
    if ports == [] then [] else Arrivals(ports[..|ports| - 1]) + ports[|ports| - 1].inbox
  }

  /** What an interface is asked to send, of a sequence of arrivals. */
  function Traffic(table: seq<Route>, ds: seq<Datagram>, k: nat): seq<Forwarding> {
    if ds == [] then []
    else
      var before, f := Traffic(table, ds[..|ds| - 1], k), Forward(table, ds[|ds| - 1]);
      if f.Some? && f.value.port == k then before + [f.value] else before
  }

  function SendAll(nic: N.Interface, fs: seq<Forwarding>): N.Interface {
    if fs == [] then nic
    else N.SendDatagram(SendAll(nic, fs[..|fs| - 1]), fs[|fs| - 1].dgram, fs[|fs| - 1].hop)
  }

  /** Each interface ends as if it alone had been given its own share of the arrivals, in order. */
  lemma {:induction false} InterfacesAreIndependent(table: seq<Route>, nics: seq<N.Interface>,
                                                    ds: seq<Datagram>, k: nat)
    requires TableFits(table, |nics|) && k < |nics|
    ensures RouteEach(table, nics, ds)[k] == SendAll(nics[k], Traffic(table, ds, k))
  {
    if ds != [] {
      var before, d := ds[..|ds| - 1], ds[|ds| - 1];
      InterfacesAreIndependent(table, nics, before, k);
      var f := Forward(table, d);
      if f.Some? && f.value.port == k {
        var fs := Traffic(table, before, k);
        assert (fs + [f.value])[..|fs|] == fs;
      }
    }
  }

  /** The number of arrivals that some route takes. */
  function Forwarded(table: seq<Route>, ds: seq<Datagram>): nat {
    if ds == [] then 0
    else Forwarded(table, ds[..|ds| - 1]) + if Forward(table, ds[|ds| - 1]).Some? then 1 else 0
  }

  function Load(table: seq<Route>, ds: seq<Datagram>, ports: nat): nat {
    if ports == 0 then 0 else Load(table, ds, ports - 1) + |Traffic(table, ds, ports - 1)|
  }

  lemma {:induction false} LoadStep(table: seq<Route>, ds: seq<Datagram>, d: Datagram, ports: nat)
    ensures Load(table, ds + [d], ports) == Load(table, ds, ports) +
              if Forward(table, d).Some? && Forward(table, d).value.port < ports then 1 else 0
  {
    assert (ds + [d])[..|ds|] == ds;
    if ports > 0 {
      LoadStep(table, ds, d, ports - 1);
    }
  }

  /** Every arrival that has a route and time to live goes to exactly one interface, every other to none. */
  lemma {:induction false} ForwardingConserves(table: seq<Route>, ds: seq<Datagram>, ports: nat)
    requires TableFits(table, ports)
    ensures Load(table, ds, ports) == Forwarded(table, ds)
  {
    if ds == [] {
      EmptyLoad(table, ports);
    } else {
      var before, d := ds[..|ds| - 1], ds[|ds| - 1];
      ForwardingConserves(table, before, ports);
      LoadStep(table, before, d, ports);
      assert before + [d] == ds;
      if Forward(table, d).Some? {
        ForwardFits(table, d, ports);
      }
    }
  }

  lemma {:induction false} EmptyLoad(table: seq<Route>, ports: nat)
    ensures Load(table, [], ports) == 0
  {
    if ports > 0 {
      EmptyLoad(table, ports - 1);
    }
  }

  function Nics(ports: seq<Port>): (r: seq<N.Interface>)
    ensures |r| == |ports| && forall i :: 0 <= i < |r| ==> r[i] == ports[i].nic
  {
    seq(|ports|, i requires 0 <= i < |ports| => ports[i].nic)
  }
}

/** The router as an object (router.cc); it computes the model above. */
module Router {
  import opened Numbers
  import opened Options
  import opened Ipv4
  import opened M = RouterModel
  import N = InterfaceModel

  class Router {
    var table: seq<Route>
    var ports: seq<Port>

    /** Every route leads to an interface that exists; needed only when routing. */
    ghost predicate Valid()
      reads this
    {
      TableFits(table, |ports|)
    }

    constructor ()
      ensures Valid() && table == [] && ports == []
    {
      table, ports := [], [];
    }

    method AddInterface(nic: N.Interface) returns (k: nat)
      modifies this`ports
      ensures k == |old(ports)| && ports == old(ports) + [Port(nic, [])]
    {
      ports := ports + [Port(nic, [])];
      k := |ports| - 1;
    }

    method AddRoute(r: Route)
      modifies this`table
      ensures table == old(table) + [r]
    {
      table := table + [r];
    }

    /** Lines 40-49; num and len are -1 until a route matches. */
    method FindRoute(dst: u32) returns (num: int)
      ensures num == -1 ==> forall r :: r in table ==> !Matches(r, dst)
      ensures num != -1 ==> Best(table, dst, num)
    {
      num := -1;
      var len := -1;
      for i := 0 to |table|
        invariant len >= -1 && (num == -1 <==> len == -1)
        invariant num == -1 ==> forall j :: 0 <= j < i ==> !Matches(table[j], dst)
        invariant num != -1 ==> 0 <= num < i && len == table[num].length && Best(table[..i], dst, num)
      {
        if Matches(table[i], dst) && len < table[i].length {
          num := i;
          len := table[i].length;
        }
      }
      assert table[..|table|] == table;
    }

    method RouteOneDatagram(d: Datagram)
      requires Valid()
      modifies this`ports
      ensures Valid() && Nics(ports) == RouteOne(table, old(Nics(ports)), d)
      ensures |ports| == |old(ports)| && forall i :: 0 <= i < |ports| ==> ports[i].inbox == old(ports)[i].inbox
    {
      if d.header.ttl <= 1 {
        return;
      }
      var num := FindRoute(d.header.dst);
      if num == -1 {
        return;
      }
      ghost var c := Choose(table, d.header.dst);
      assert c.Some? by {
        assert table[num] in table;
      }
      BestIsUnique(table, d.header.dst, num, c.value);
      var out := d.(header := d.header.(ttl := d.header.ttl - 1));
      var r := table[num];
      assert r in table;
      var hop := if r.nextHop.Some? then r.nextHop.value else d.header.dst;
      ports := ports[r.port := ports[r.port].(nic := N.SendDatagram(ports[r.port].nic, out, hop))];
    }

    /** Lines 66-70, for one interface. */
    method Drain(i: nat)
      requires Valid() && i < |ports|
      modifies this`ports
      ensures Valid() && Nics(ports) == RouteEach(table, old(Nics(ports)), old(ports[i].inbox))
      ensures |ports| == |old(ports)| && ports[i].inbox == []
      ensures forall j :: 0 <= j < |ports| && j != i ==> ports[j].inbox == old(ports)[j].inbox
    {
      ghost var all, k := ports[i].inbox, 0;
      while ports[i].inbox != []
        invariant |ports| == |old(ports)| && 0 <= k <= |all| && ports[i].inbox == all[k..]
        invariant Nics(ports) == RouteEach(table, old(Nics(ports)), all[..k])
        invariant forall j :: 0 <= j < |ports| && j != i ==> ports[j].inbox == old(ports)[j].inbox
        decreases |ports[i].inbox|
      {
        assert all[..k + 1][..k] == all[..k];
        RouteOneDatagram(ports[i].inbox[0]);
        ghost var routed := Nics(ports);
        ports := ports[i := ports[i].(inbox := ports[i].inbox[1..])];
        assert Nics(ports) == routed;
        k := k + 1;
      }
      assert all[..k] == all;
    }

    /** Routes everything received, interface by interface, and leaves no datagram waiting to be routed. */
    method Route()
      requires Valid()
      modifies this`ports
      ensures Valid() && |ports| == |old(ports)|
      ensures Nics(ports) == RouteEach(table, old(Nics(ports)), Arrivals(old(ports)))
      ensures forall i :: 0 <= i < |ports| ==> ports[i].inbox == []
    {
      ghost var was := ports;
      for i := 0 to |ports|
        invariant |ports| == |was|
        invariant Nics(ports) == RouteEach(table, Nics(was), Arrivals(was[..i]))
        invariant forall j :: 0 <= j < i ==> ports[j].inbox == []
        invariant forall j :: i <= j < |ports| ==> ports[j].inbox == was[j].inbox
      {
        Drain(i);
        RouteEachAppend(table, Nics(was), Arrivals(was[..i]), was[i].inbox);
        assert was[..i + 1][..i] == was[..i];
      }
      assert was[..|was|] == was;
    }
  }
}

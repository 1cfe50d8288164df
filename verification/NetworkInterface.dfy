/** Address resolution below IP (network_interface.cc; RFC 826), as values. */
module InterfaceModel {
  import opened Numbers
  import opened Options
  import opened Ipv4

  const CACHE_MS := 30000
  const REQUEST_MS := 5000
  const BROADCAST := 0xffff_ffff_ffff

  type Mac = x: int | 0 <= x <= BROADCAST

  /** An ARP message, request or reply. */
  datatype Arp = Arp(request: bool, senderMac: Mac, senderIp: u32, targetMac: Mac, targetIp: u32)

  /** What a frame's type and payload parse to. */
  datatype Content = ArpContent(arp: Arp) | IpContent(dgram: Datagram) | Unreadable

  datatype Frame = Frame(dst: Mac, src: Mac, content: Content)

  datatype Entry = Entry(age: nat, mac: Mac)

  /** Datagrams waiting for a hop's address, and the time since its first request. */
  datatype Waiting = Waiting(since: nat, dgrams: seq<Datagram>)

  datatype Interface = Interface(
    mac: Mac, ip: u32, framesOut: seq<Frame>, cache: map<u32, Entry>, parked: map<u32, Waiting>)

  function Fresh(mac: Mac, ip: u32): Interface { Interface(mac, ip, [], map[], map[]) }

  function IpFrame(n: Interface, d: Datagram, to: Mac): Frame { Frame(to, n.mac, IpContent(d)) }

  function RequestFrame(n: Interface, hop: u32): Frame {
    Frame(BROADCAST, n.mac, ArpContent(Arp(true, n.mac, n.ip, 0, hop)))
  }

  function ReplyFrame(n: Interface, to: Mac, ip: u32): Frame {
    Frame(to, n.mac, ArpContent(Arp(false, n.mac, n.ip, to, ip)))
  }

  function Emit(n: Interface, f: Frame): Interface { n.(framesOut := n.framesOut + [f]) }

  /** send_datagram; a datagram for a hop that is already being asked for goes into a copy of the queue, and is lost. */
  function SendDatagram(n: Interface, d: Datagram, hop: u32): Interface {
    if hop in n.cache then Emit(n, IpFrame(n, d, n.cache[hop].mac))
    else if hop in n.parked then
      if n.parked[hop].since >= REQUEST_MS then Emit(n, RequestFrame(n, hop)) else n
    else Emit(n.(parked := n.parked[hop := Waiting(0, [d])]), RequestFrame(n, hop))
  }

  function IpFrames(n: Interface, ds: seq<Datagram>, to: Mac): (fs: seq<Frame>)
    ensures |fs| == |ds| && forall i :: 0 <= i < |ds| ==> fs[i] == IpFrame(n, ds[i], to)
  {
    seq(|ds|, i requires 0 <= i < |ds| => IpFrame(n, ds[i], to))
  }

  /** An ARP message teaches the sender's address and releases what waited for it. */
  function Learn(n: Interface, a: Arp): Interface {
    var released := if a.senderIp in n.parked then n.parked[a.senderIp].dgrams else [];
    n.(cache := n.cache[a.senderIp := Entry(0, a.senderMac)],
       parked := n.parked - {a.senderIp},
       framesOut := n.framesOut + IpFrames(n, released, a.senderMac))
  }

  predicate ForUs(n: Interface, f: Frame) { f.dst == n.mac || f.dst == BROADCAST }

  function Reply(n: Interface, a: Arp): Interface {
    if a.request && a.targetIp == n.ip then Emit(n, ReplyFrame(n, a.senderMac, a.senderIp)) else n
  }

  function RecvFrame(n: Interface, f: Frame): (Interface, Option<Datagram>) {
    if !ForUs(n, f) then (n, None)
    else
      match f.content
      case ArpContent(a) => (Reply(Learn(n, a), a), None)
      case IpContent(d) => (n, Some(d))
      case Unreadable => (n, None)
  }

  function Tick(n: Interface, ms: nat): Interface {
    n.(cache := map k | k in n.cache && n.cache[k].age + ms < CACHE_MS :: n.cache[k].(age := n.cache[k].age + ms),
       parked := map k | k in n.parked :: n.parked[k].(since := n.parked[k].since + ms))
  }

  // ---- Runs ----

  datatype Event = Sends(dgram: Datagram, hop: u32) | Receives(frame: Frame) | Passes(ms: nat)

  function Step(n: Interface, e: Event): Interface {
    match e
    case Sends(d, hop) => SendDatagram(n, d, hop)
    case Receives(f) => RecvFrame(n, f).0
    case Passes(ms) => Tick(n, ms)
  }

  function Run(n: Interface, es: seq<Event>): Interface {
    if es == [] then n else Step(Run(n, es[..|es| - 1]), es[|es| - 1])
  }

  /** The event is an ARP message from ip, addressed to this interface. */
  predicate Hears(mac: Mac, e: Event, ip: u32) {
    && e.Receives? && (e.frame.dst == mac || e.frame.dst == BROADCAST)
    && e.frame.content.ArpContent? && e.frame.content.arp.senderIp == ip
  }

  /** The latest ARP message from ip and how long ago it came, from the history alone. */
  function LastHeard(mac: Mac, es: seq<Event>, ip: u32): Option<Entry> {
    if es == [] then None
    else
      var e, before := es[|es| - 1], LastHeard(mac, es[..|es| - 1], ip);
      if Hears(mac, e, ip) then Some(Entry(0, e.frame.content.arp.senderMac))
      else if e.Passes? && before.Some? then Some(before.value.(age := before.value.age + e.ms))
      else before
  }

  /** What the cache should say about ip. */
  ghost predicate CacheRight(n: Interface, ip: u32, heard: Option<Entry>) {
    if heard.Some? && heard.value.age < CACHE_MS then ip in n.cache && n.cache[ip] == heard.value
    else ip !in n.cache
  }

  lemma StepKeepsCacheRight(n: Interface, e: Event, ip: u32, heard: Option<Entry>)
    requires CacheRight(n, ip, heard)
    ensures Step(n, e).mac == n.mac
    ensures CacheRight(Step(n, e), ip,
              if Hears(n.mac, e, ip) then Some(Entry(0, e.frame.content.arp.senderMac))
              else if e.Passes? && heard.Some? then Some(heard.value.(age := heard.value.age + e.ms))
              else heard)
  {
  }

  /**
   * After any run an address is cached exactly when an ARP message from it was heard less than 30000
   * milliseconds ago, and then it maps to the MAC of the latest such message.
   */
  lemma {:induction false} CacheIsHistory(mac: Mac, ip0: u32, es: seq<Event>, ip: u32)
    ensures Run(Fresh(mac, ip0), es).mac == mac
    ensures CacheRight(Run(Fresh(mac, ip0), es), ip, LastHeard(mac, es, ip))
  {
    if es != [] {
      CacheIsHistory(mac, ip0, es[..|es| - 1], ip);
      StepKeepsCacheRight(Run(Fresh(mac, ip0), es[..|es| - 1]), es[|es| - 1], ip,
                          LastHeard(mac, es[..|es| - 1], ip));
    }
  }

  /** No address is both cached and waited for, and exactly one datagram waits for each hop. */
  ghost predicate Valid(n: Interface) {
    && n.cache.Keys !! n.parked.Keys
    && forall k :: k in n.parked ==> |n.parked[k].dgrams| == 1
  }

  lemma StepKeepsValid(n: Interface, e: Event)
    requires Valid(n)
    ensures Valid(Step(n, e))
  {
  }

  lemma {:induction false} RunIsValid(mac: Mac, ip: u32, es: seq<Event>)
    ensures Valid(Run(Fresh(mac, ip), es))
  {
    if es != [] {
      RunIsValid(mac, ip, es[..|es| - 1]);
      StepKeepsValid(Run(Fresh(mac, ip), es[..|es| - 1]), es[|es| - 1]);
    }
  }

  /** d is what waits for hop. */
  ghost predicate WaitsFor(n: Interface, d: Datagram, hop: u32) {
    hop in n.parked && n.parked[hop].dgrams == [d]
  }

  /** As long as nothing is heard from the hop, its datagram goes on waiting. */
  lemma {:induction false} KeepsWaiting(n: Interface, d: Datagram, hop: u32, es: seq<Event>)
    requires Valid(n) && WaitsFor(n, d, hop)
    requires forall e :: e in es ==> !Hears(n.mac, e, hop)
    ensures Valid(Run(n, es)) && WaitsFor(Run(n, es), d, hop) && Run(n, es).mac == n.mac
  {
    if es != [] {
      var before, e := es[..|es| - 1], es[|es| - 1];
      assert e in es;
      KeepsWaiting(n, d, hop, before);
      StepKeepsValid(Run(n, before), e);
    }
  }

  /**
   * The first datagram for an unknown hop waits until the first ARP message from that hop; that
   * message sends it, to the MAC it names, and nothing waits for the hop any more.
   */
  lemma ParkedLeavesToFirstHeard(n: Interface, d: Datagram, hop: u32, quiet: seq<Event>, f: Frame)
    requires Valid(n) && hop !in n.cache && hop !in n.parked
    requires forall e :: e in quiet ==> !Hears(n.mac, e, hop)
    requires Hears(n.mac, Receives(f), hop)
    ensures var waiting := Run(SendDatagram(n, d, hop), quiet);
            var after := Step(waiting, Receives(f));
            && waiting.framesOut + [IpFrame(waiting, d, f.content.arp.senderMac)] <= after.framesOut
            && |after.framesOut| <= |waiting.framesOut| + 2
            && (forall i :: |waiting.framesOut| < i < |after.framesOut| ==> after.framesOut[i].content.ArpContent?)
            && hop !in after.parked && hop in after.cache && after.cache[hop].mac == f.content.arp.senderMac
  {
    var sent := SendDatagram(n, d, hop);
    assert Valid(sent) && WaitsFor(sent, d, hop) && sent.mac == n.mac;
    KeepsWaiting(sent, d, hop, quiet);
    var waiting, a := Run(sent, quiet), f.content.arp;
    assert IpFrames(waiting, [d], a.senderMac) == [IpFrame(waiting, d, a.senderMac)];
    assert Learn(waiting, a).framesOut == waiting.framesOut + [IpFrame(waiting, d, a.senderMac)];
  }

  // ---- How often a datagram leaves ----

  /** How many of the frames carry d. */
  function Copies(fs: seq<Frame>, d: Datagram): nat {
    if fs == [] then 0 else Copies(fs[..|fs| - 1], d) + if fs[|fs| - 1].content == IpContent(d) then 1 else 0
  }

  /** The hops for which d waits. */
  function Holding(n: Interface, d: Datagram): set<u32> { set k | k in n.parked && n.parked[k].dgrams == [d] }

  predicate SendsIt(e: Event, d: Datagram) { e.Sends? && e.dgram == d }

  /** How often d was handed in. */
  function SendsOf(es: seq<Event>, d: Datagram): nat {
    if es == [] then 0 else SendsOf(es[..|es| - 1], d) + if SendsIt(es[|es| - 1], d) then 1 else 0
  }

  function Account(n: Interface, d: Datagram): nat { Copies(n.framesOut, d) + |Holding(n, d)| }

  lemma CopiesSnoc(fs: seq<Frame>, f: Frame, d: Datagram)
    ensures Copies(fs + [f], d) == Copies(fs, d) + if f.content == IpContent(d) then 1 else 0
  {
    assert (fs + [f])[..|fs|] == fs;
  }

  lemma {:induction false} CopiesMonotone(fs: seq<Frame>, gs: seq<Frame>, d: Datagram)
    requires fs <= gs
    ensures Copies(fs, d) <= Copies(gs, d)
    decreases |gs|
  {
    if fs != gs {
      CopiesMonotone(fs, gs[..|gs| - 1], d);
    }
  }

  /** Learning an address turns one waiting datagram into one frame. */
  lemma LearnAccount(n: Interface, a: Arp, d: Datagram)
    requires Valid(n)
    ensures Account(Learn(n, a), d) == Account(n, d)
  {
    var t := Learn(n, a);
    if a.senderIp in n.parked {
      var p := n.parked[a.senderIp].dgrams[0];
      assert n.parked[a.senderIp].dgrams == [p];
      assert IpFrames(n, [p], a.senderMac) == [IpFrame(n, p, a.senderMac)];
      CopiesSnoc(n.framesOut, IpFrame(n, p, a.senderMac), d);
      assert Holding(t, d) == Holding(n, d) - {a.senderIp};
      assert a.senderIp in Holding(n, d) <==> p == d;
    } else {
      assert Holding(t, d) == Holding(n, d);
      assert t.framesOut == n.framesOut;
    }
  }

  lemma ReplyAccount(n: Interface, a: Arp, d: Datagram)
    ensures Account(Reply(n, a), d) == Account(n, d)
  {
    CopiesSnoc(n.framesOut, ReplyFrame(n, a.senderMac, a.senderIp), d);
    assert Holding(Reply(n, a), d) == Holding(n, d);
  }

  lemma ParkHolds(n: Interface, t: Interface, x: Datagram, hop: u32, d: Datagram)
    requires hop !in n.parked && t.parked == n.parked[hop := Waiting(0, [x])]
    ensures |Holding(t, d)| == |Holding(n, d)| + if x == d then 1 else 0
  {
    assert [x][0] == x && [d][0] == d;
    assert forall k :: k in n.parked ==> k in t.parked && t.parked[k] == n.parked[k];
    assert hop in Holding(t, d) <==> x == d;
    assert Holding(t, d) - {hop} == Holding(n, d);
  }

  lemma SendAccount(n: Interface, x: Datagram, hop: u32, d: Datagram)
    ensures Account(SendDatagram(n, x, hop), d) <= Account(n, d) + if x == d then 1 else 0
  {
    var t := SendDatagram(n, x, hop);
    CopiesSnoc(n.framesOut, RequestFrame(n, hop), d);
    if hop in n.cache {
      CopiesSnoc(n.framesOut, IpFrame(n, x, n.cache[hop].mac), d);
      assert Holding(t, d) == Holding(n, d);
    } else if hop in n.parked {
      assert Holding(t, d) == Holding(n, d);
    } else {
      ParkHolds(n, t, x, hop, d);
    }
  }

  lemma StepAccount(n: Interface, e: Event, d: Datagram)
    requires Valid(n)
    ensures Account(Step(n, e), d) <= Account(n, d) + if SendsIt(e, d) then 1 else 0
  {
    match e
    case Sends(x, hop) => SendAccount(n, x, hop, d);
    case Receives(f) =>
      if ForUs(n, f) && f.content.ArpContent? {
        LearnAccount(n, f.content.arp, d);
        ReplyAccount(Learn(n, f.content.arp), f.content.arp, d);
      }
    case Passes(ms) =>
      assert Holding(Tick(n, ms), d) == Holding(n, d);
  }

  /** Over any run, copies sent plus copies still waiting never exceed the number of times d was handed in. */
  lemma {:induction false} NoDuplicates(mac: Mac, ip: u32, es: seq<Event>, d: Datagram)
    ensures var n := Run(Fresh(mac, ip), es);
            Copies(n.framesOut, d) + |Holding(n, d)| <= SendsOf(es, d)
  {
    if es == [] {
      assert Holding(Fresh(mac, ip), d) == {};
    } else {
      var before := es[..|es| - 1];
      NoDuplicates(mac, ip, before, d);
      RunIsValid(mac, ip, before);
      StepAccount(Run(Fresh(mac, ip), before), es[|es| - 1], d);
    }
  }

  lemma {:induction false} RunAppend(n: Interface, a: seq<Event>, b: seq<Event>)
    ensures Run(n, a + b) == Run(Run(n, a), b)
    decreases |b|
  {
    if b == [] {
      assert a + b == a;
    } else {
      RunAppend(n, a, b[..|b| - 1]);
      assert (a + b)[..|a + b| - 1] == a + b[..|b| - 1];
    }
  }

  lemma {:induction false} SendsOfAppend(a: seq<Event>, b: seq<Event>, d: Datagram)
    ensures SendsOf(a + b, d) == SendsOf(a, d) + SendsOf(b, d)
    decreases |b|
  {
    if b == [] {
      assert a + b == a;
    } else {
      SendsOfAppend(a, b[..|b| - 1], d);
      assert (a + b)[..|a + b| - 1] == a + b[..|b| - 1];
    }
  }

  /** Frames are only ever added. */
  lemma {:induction false} FramesGrow(n: Interface, es: seq<Event>)
    ensures n.framesOut <= Run(n, es).framesOut
  {
    if es != [] {
      FramesGrow(n, es[..|es| - 1]);
    }
  }

  /** d is handed in once, for an unknown hop; after some quiet f is heard from the hop, and more follows. */
  ghost predicate HandedInOnce(mac: Mac, ip: u32, before: seq<Event>, d: Datagram, hop: u32, quiet: seq<Event>,
                               f: Frame, more: seq<Event>)
  {
    var n := Run(Fresh(mac, ip), before);
    && hop !in n.cache && hop !in n.parked
    && SendsOf(before, d) == SendsOf(quiet, d) == SendsOf(more, d) == 0
    && (forall e :: e in quiet ==> !Hears(mac, e, hop))
    && Hears(mac, Receives(f), hop)
  }

  lemma WaitsUnsent(mac: Mac, ip: u32, before: seq<Event>, d: Datagram, hop: u32, quiet: seq<Event>)
    requires var n := Run(Fresh(mac, ip), before); hop !in n.cache && hop !in n.parked
    requires SendsOf(before, d) == SendsOf(quiet, d) == 0
    requires forall e :: e in quiet ==> !Hears(mac, e, hop)
    ensures var w := Run(Fresh(mac, ip), before + [Sends(d, hop)] + quiet);
            w.mac == mac && WaitsFor(w, d, hop) && Copies(w.framesOut, d) == 0
  {
    var n, sent := Run(Fresh(mac, ip), before), before + [Sends(d, hop)];
    RunIsValid(mac, ip, before);
    CacheIsHistory(mac, ip, before, hop);
    RunAppend(Fresh(mac, ip), before, [Sends(d, hop)]);
    RunAppend(Fresh(mac, ip), sent, quiet);
    assert Run(n, [Sends(d, hop)]) == SendDatagram(n, d, hop);
    StepKeepsValid(n, Sends(d, hop));
    KeepsWaiting(SendDatagram(n, d, hop), d, hop, quiet);
    var w := Run(Fresh(mac, ip), sent + quiet);
    NoDuplicates(mac, ip, sent + quiet, d);
    SendsOfAppend(before, [Sends(d, hop)], d);
    SendsOfAppend(sent, quiet, d);
    assert hop in Holding(w, d);
  }

  /**
   * Exactly once, over whole runs: a datagram handed in once, for a hop that is neither known nor waited for,
   * is not sent before the hop is heard from; from the first ARP message from it on, exactly one frame carries
   * it, addressed to the MAC of that message.
   */
  lemma ParkedLeavesOnce(mac: Mac, ip: u32, before: seq<Event>, d: Datagram, hop: u32, quiet: seq<Event>,
                         f: Frame, more: seq<Event>)
    requires HandedInOnce(mac, ip, before, d, hop, quiet, f, more)
    ensures Copies(Run(Fresh(mac, ip), before + [Sends(d, hop)] + quiet).framesOut, d) == 0
    ensures var end := Run(Fresh(mac, ip), before + [Sends(d, hop)] + quiet + [Receives(f)] + more);
            && Copies(end.framesOut, d) == 1
            && Frame(f.content.arp.senderMac, mac, IpContent(d)) in end.framesOut
  {
    var waited := before + [Sends(d, hop)] + quiet;
    var heard := waited + [Receives(f)];
    WaitsUnsent(mac, ip, before, d, hop, quiet);
    var w := Run(Fresh(mac, ip), waited);
    var out := IpFrame(w, d, f.content.arp.senderMac);
    RunIsValid(mac, ip, waited);
    assert heard[..|heard| - 1] == waited;
    HeardSends(w, d, hop, f);
    RunAppend(Fresh(mac, ip), heard, more);
    FramesGrow(Run(Fresh(mac, ip), heard), more);
    CopiesSnoc(w.framesOut, out, d);
    CopiesMonotone(w.framesOut + [out], Run(Fresh(mac, ip), heard + more).framesOut, d);
    NoDuplicates(mac, ip, heard + more, d);
    SendsOfAppend(before, [Sends(d, hop)], d);
    SendsOfAppend(before + [Sends(d, hop)], quiet, d);
    SendsOfAppend(waited, [Receives(f)], d);
    SendsOfAppend(heard, more, d);
    assert out in w.framesOut + [out];
  }

  /** The first ARP message from a hop sends what waits for it. */
  lemma HeardSends(w: Interface, d: Datagram, hop: u32, f: Frame)
    requires WaitsFor(w, d, hop) && Hears(w.mac, Receives(f), hop)
    ensures w.framesOut + [IpFrame(w, d, f.content.arp.senderMac)] <= Step(w, Receives(f)).framesOut
  {
    var a := f.content.arp;
    assert IpFrames(w, [d], a.senderMac) == [IpFrame(w, d, a.senderMac)];
    assert Learn(w, a).framesOut == w.framesOut + [IpFrame(w, d, a.senderMac)];
  }

  /** The datagram leaves at once, or it is the one that waits for its hop, in a queue made for it. */
  ghost predicate Taken(n: Interface, t: Interface, d: Datagram, hop: u32) {
    || (hop in n.cache && t == Emit(n, IpFrame(n, d, n.cache[hop].mac)))
    || (hop !in n.parked && WaitsFor(t, d, hop))
  }

  /**
   * A datagram given to send_datagram leaves or starts to wait if and only if its hop is not already
   * waited for; otherwise it is lost: no queue changes, and at most another request is sent.
   */
  lemma SecondDatagramIsLostIff(n: Interface, d: Datagram, hop: u32)
    requires Valid(n)
    ensures Taken(n, SendDatagram(n, d, hop), d, hop) <==> hop !in n.parked
    ensures hop in n.parked ==>
      SendDatagram(n, d, hop) == if n.parked[hop].since >= REQUEST_MS then Emit(n, RequestFrame(n, hop)) else n
  {
    if hop in n.parked {
      assert hop !in n.cache;
    }
  }

  /** Two datagrams for one unknown hop, then the hop's answer: only the first one is ever sent. */
  lemma SecondDatagramNeverLeaves(mac: Mac, ip: u32, first: Datagram, second: Datagram, hop: u32, from: Mac)
    ensures var reply := Frame(mac, from, ArpContent(Arp(false, from, hop, mac, ip)));
            var start := Fresh(mac, ip);
            var end := Step(Step(Step(start, Sends(first, hop)), Sends(second, hop)), Receives(reply));
            end.framesOut == [RequestFrame(start, hop), IpFrame(start, first, from)] && end.parked == map[]
  {
    var start := Fresh(mac, ip);
    var waiting := SendDatagram(start, first, hop);
    assert SendDatagram(waiting, second, hop) == waiting;
    assert IpFrames(waiting, [first], from) == [IpFrame(start, first, from)];
  }

  // ---- Everything from the history ----

  /** ip was heard from less than thirty seconds ago. */
  predicate Known(mac: Mac, es: seq<Event>, ip: u32) {
    var heard := LastHeard(mac, es, ip);
    heard.Some? && heard.value.age < CACHE_MS
  }

  /**
   * What waits for ip and for how long, from the history alone: the first datagram sent to it while it was not
   * known, and the time that has passed since.
   */
  function Pending(mac: Mac, es: seq<Event>, ip: u32): Option<Waiting> {
    if es == [] then None
    else
      var e, before := es[|es| - 1], es[..|es| - 1];
      var pending := Pending(mac, before, ip);
      if Hears(mac, e, ip) then None
      else if e.Sends? && e.hop == ip && pending.None? && !Known(mac, before, ip) then Some(Waiting(0, [e.dgram]))
      else if e.Passes? && pending.Some? then Some(pending.value.(since := pending.value.since + e.ms))
      else pending
  }

  /** After any run, what waits for an address, and since when, is what the history says. */
  lemma {:induction false} ParkedIsHistory(mac: Mac, ip0: u32, es: seq<Event>, ip: u32)
    ensures ip in Run(Fresh(mac, ip0), es).parked <==> Pending(mac, es, ip).Some?
    ensures Pending(mac, es, ip).Some? ==> Run(Fresh(mac, ip0), es).parked[ip] == Pending(mac, es, ip).value
  {
    if es != [] {
      ParkedIsHistory(mac, ip0, es[..|es| - 1], ip);
      CacheIsHistory(mac, ip0, es[..|es| - 1], ip);
      RunIsValid(mac, ip0, es[..|es| - 1]);
    }
  }

  /** What waited for the sender of an ARP message leaves. */
  function Released(mac: Mac, before: seq<Event>, a: Arp): seq<Frame> {
    var pending := Pending(mac, before, a.senderIp);
    if pending.Some? && pending.value.dgrams != []
    then [Frame(a.senderMac, mac, IpContent(pending.value.dgrams[0]))] else []
  }

  /** A request for ip is answered, to the one who asked. */
  function AnswerTo(mac: Mac, ip: u32, a: Arp): seq<Frame> {
    if a.request && a.targetIp == ip
    then [Frame(a.senderMac, mac, ArpContent(Arp(false, mac, ip, a.senderMac, a.senderIp)))] else []
  }

  /** The frames that a datagram for hop calls for: itself to a known hop; else a request, unless one is recent. */
  function SentFor(mac: Mac, ip: u32, before: seq<Event>, d: Datagram, hop: u32): seq<Frame> {
    var pending := Pending(mac, before, hop);
    if Known(mac, before, hop) then [Frame(LastHeard(mac, before, hop).value.mac, mac, IpContent(d))]
    else if pending.None? || pending.value.since >= REQUEST_MS
    then [Frame(BROADCAST, mac, ArpContent(Arp(true, mac, ip, 0, hop)))]
    else []
  }

  /** Every frame that should have been sent, in order, from the history alone. */
  function Expected(mac: Mac, ip: u32, es: seq<Event>): seq<Frame> {
    if es == [] then []
    else
      var e, before := es[|es| - 1], es[..|es| - 1];
      Expected(mac, ip, before) +
      match e
      case Sends(d, hop) => SentFor(mac, ip, before, d, hop)
      case Receives(f) =>
        if (f.dst == mac || f.dst == BROADCAST) && f.content.ArpContent?
        then Released(mac, before, f.content.arp) + AnswerTo(mac, ip, f.content.arp) else []
      case Passes(_) => []
  }

  lemma SendAddsExpected(mac: Mac, ip: u32, before: seq<Event>, d: Datagram, hop: u32)
    ensures var n := Run(Fresh(mac, ip), before);
            SendDatagram(n, d, hop).framesOut == n.framesOut + SentFor(mac, ip, before, d, hop)
  {
    RunKeepsNames(mac, ip, before);
    CacheIsHistory(mac, ip, before, hop);
    ParkedIsHistory(mac, ip, before, hop);
  }

  lemma LearnAddsReleased(mac: Mac, ip: u32, before: seq<Event>, a: Arp)
    ensures var n := Run(Fresh(mac, ip), before);
            Learn(n, a).framesOut == n.framesOut + Released(mac, before, a)
  {
    var n := Run(Fresh(mac, ip), before);
    RunKeepsNames(mac, ip, before);
    ParkedIsHistory(mac, ip, before, a.senderIp);
    RunIsValid(mac, ip, before);
    if a.senderIp in n.parked {
      var d := n.parked[a.senderIp].dgrams[0];
      assert n.parked[a.senderIp].dgrams == [d];
      assert IpFrames(n, [d], a.senderMac) == [IpFrame(n, d, a.senderMac)];
    }
  }

  lemma ReplyAddsAnswer(n: Interface, a: Arp)
    ensures Reply(n, a).framesOut == n.framesOut + AnswerTo(n.mac, n.ip, a)
  {
  }

  lemma HearAddsExpected(mac: Mac, ip: u32, before: seq<Event>, a: Arp)
    ensures var n := Run(Fresh(mac, ip), before);
            Reply(Learn(n, a), a).framesOut == n.framesOut + (Released(mac, before, a) + AnswerTo(mac, ip, a))
  {
    var n := Run(Fresh(mac, ip), before);
    RunKeepsNames(mac, ip, before);
    LearnAddsReleased(mac, ip, before, a);
    ReplyAddsAnswer(Learn(n, a), a);
  }

  lemma {:induction false} RunKeepsNames(mac: Mac, ip: u32, es: seq<Event>)
    ensures Run(Fresh(mac, ip), es).mac == mac && Run(Fresh(mac, ip), es).ip == ip
  {
    if es != [] {
      RunKeepsNames(mac, ip, es[..|es| - 1]);
    }
  }

  /**
   * After any run, the frames sent are exactly those that the history calls for, in order: datagrams to the MAC
   * last heard, requests for unknown hops, waiting datagrams once their hop is heard, and an answer to every
   * request for this interface's own address.
   */
  lemma {:induction false} FramesAreHistory(mac: Mac, ip: u32, es: seq<Event>)
    ensures Run(Fresh(mac, ip), es).framesOut == Expected(mac, ip, es)
  {
    if es != [] {
      var e, before := es[|es| - 1], es[..|es| - 1];
      FramesAreHistory(mac, ip, before);
      RunKeepsNames(mac, ip, before);
      match e {
        case Sends(d, hop) => SendAddsExpected(mac, ip, before, d, hop);
        case Receives(f) =>
          if ForUs(Run(Fresh(mac, ip), before), f) && f.content.ArpContent? {
            HearAddsExpected(mac, ip, before, f.content.arp);
          }
        case Passes(_) =>
      }
    }
  }

  /** What a run hands up, arrival by arrival. */
  function HandedUp(n: Interface, es: seq<Event>): seq<Datagram> {
    if es == [] then []
    else
      var e, before := es[|es| - 1], es[..|es| - 1];
      var up := if e.Receives? then RecvFrame(Run(n, before), e.frame).1 else None;
      HandedUp(n, before) + if up.Some? then [up.value] else []
  }

  /** The datagrams in frames for this address or for all. */
  function AddressedTo(mac: Mac, es: seq<Event>): seq<Datagram> {
    if es == [] then []
    else
      var e := es[|es| - 1];
      AddressedTo(mac, es[..|es| - 1]) +
      if e.Receives? && (e.frame.dst == mac || e.frame.dst == BROADCAST) && e.frame.content.IpContent?
      then [e.frame.content.dgram] else []
  }

  /** Over any run, exactly the datagrams addressed to the interface are handed up, in order. */
  lemma {:induction false} HandsUpAddressed(mac: Mac, ip: u32, es: seq<Event>)
    ensures HandedUp(Fresh(mac, ip), es) == AddressedTo(mac, es)
  {
    if es != [] {
      HandsUpAddressed(mac, ip, es[..|es| - 1]);
      RunKeepsNames(mac, ip, es[..|es| - 1]);
    }
  }

  // ---- Two interfaces on one link ----

  /**
   * Resolution: a is given a datagram for b's address; b gets what a sent, a gets what b answered, and b gets what
   * a sent then. b hands up that datagram, each knows the other's MAC, and nothing waits.
   */
  lemma Resolves(macA: Mac, ipA: u32, macB: Mac, ipB: u32, d: Datagram)
    ensures var a0, b0 := Fresh(macA, ipA), Fresh(macB, ipB);
            var a1 := SendDatagram(a0, d, ipB);
            |a1.framesOut| == 1
            && var b1 := RecvFrame(b0, a1.framesOut[0]).0;
               |b1.framesOut| == 1
               && var a2 := RecvFrame(a1, b1.framesOut[0]).0;
                  |a2.framesOut| == 2
                  && var (b2, up) := RecvFrame(b1, a2.framesOut[1]);
                     && up == Some(d)
                     && ipB in a2.cache && a2.cache[ipB].mac == macB && ipA in b2.cache && b2.cache[ipA].mac == macA
                     && a2.parked == map[] && b2.parked == map[]
  {
    var a0, b0 := Fresh(macA, ipA), Fresh(macB, ipB);
    var a1 := SendDatagram(a0, d, ipB);
    assert a1.framesOut == [RequestFrame(a0, ipB)];
    var b1 := RecvFrame(b0, a1.framesOut[0]).0;
    assert b1.framesOut == [ReplyFrame(b0, macA, ipA)];
    assert IpFrames(a1, [d], macB) == [IpFrame(a1, d, macB)];
  }
}

/** The interface as an object (network_interface.cc); it computes the model above. */
module NetworkInterface {
  import opened Numbers
  import opened Options
  import opened Ipv4
  import opened M = InterfaceModel

  class NetworkInterface {
    const mac: Mac
    const ip: u32
    var framesOut: seq<Frame>
    var cache: map<u32, Entry>
    var parked: map<u32, Waiting>

    ghost function Model(): Interface
      reads this
    {
      Interface(mac, ip, framesOut, cache, parked)
    }

    constructor (mac: Mac, ip: u32)
      ensures Model() == M.Fresh(mac, ip)
    {
      this.mac, this.ip := mac, ip;
      framesOut, cache, parked := [], map[], map[];
    }

    method SendDatagramHandler(d: Datagram, to: Mac)
      modifies this`framesOut
      ensures Model() == Emit(old(Model()), IpFrame(old(Model()), d, to))
    {
      framesOut := framesOut + [Frame(to, mac, IpContent(d))];
    }

    method SendDatagram(d: Datagram, hop: u32)
      modifies this
      ensures Model() == M.SendDatagram(old(Model()), d, hop)
    {
      var needRequest := false;
      if hop in cache {
        SendDatagramHandler(d, cache[hop].mac);
      } else if hop in parked {
        var copy := parked[hop];
        copy := copy.(dgrams := copy.dgrams + [d]);
        needRequest := copy.since >= REQUEST_MS;
      } else {
        parked := parked[hop := Waiting(0, [d])];
        needRequest := true;
      }
      if needRequest {
        framesOut := framesOut + [Frame(BROADCAST, mac, ArpContent(Arp(true, mac, ip, 0, hop)))];
      }
    }

    /** Lines 112-144: note the sender's address and send what waited for it. */
    method Learn(a: Arp)
      modifies this
      ensures Model() == M.Learn(old(Model()), a)
    {
      cache := cache[a.senderIp := Entry(0, a.senderMac)];
      if a.senderIp in parked {
        var waiting := parked[a.senderIp].dgrams;
        ghost var all, k := waiting, 0;
        ghost var before := Model();
        while waiting != []
          invariant 0 <= k <= |all| && waiting == all[k..]
          invariant Model() == before.(framesOut := before.framesOut + IpFrames(before, all[..k], a.senderMac))
          decreases |waiting|
        {
          assert IpFrames(before, all[..k + 1], a.senderMac)
              == IpFrames(before, all[..k], a.senderMac) + [IpFrame(before, all[k], a.senderMac)];
          SendDatagramHandler(waiting[0], a.senderMac);
          waiting := waiting[1..];
          k := k + 1;
        }
        assert all[..k] == all;
        parked := parked - {a.senderIp};
      }
      assert a.senderIp !in old(parked) ==> old(parked) - {a.senderIp} == old(parked);
    }

    method RecvFrame(f: Frame) returns (r: Option<Datagram>)
      modifies this
      ensures (Model(), r) == M.RecvFrame(old(Model()), f)
    {
      r := None;
      if f.dst != mac && f.dst != BROADCAST {
        return;
      }
      match f.content {
        case ArpContent(a) =>
          Learn(a);
          if a.request && a.targetIp == ip {
            var reply := Arp(false, mac, ip, a.senderMac, a.senderIp);
            framesOut := framesOut + [Frame(a.senderMac, mac, ArpContent(reply))];
          }
        case IpContent(d) =>
          r := Some(d);
        case Unreadable =>
      }
    }

    method Tick(ms: nat)
      modifies this
      ensures Model() == M.Tick(old(Model()), ms)
    {
      AgeCache(ms);
      var todo := parked.Keys;
      ghost var was := parked;
      while todo != {}
        invariant todo <= parked.Keys && parked.Keys == was.Keys
        invariant cache == M.Tick(old(Model()), ms).cache && framesOut == old(framesOut)
        invariant forall k :: k in todo ==> parked[k] == was[k]
        invariant forall k :: k in was && k !in todo ==> parked[k] == was[k].(since := was[k].since + ms)
        decreases todo
      {
        var k :| k in todo;
        todo := todo - {k};
        parked := parked[k := parked[k].(since := parked[k].since + ms)];
      }
    }

    /** Lines 163-172: age every entry, and erase those that reach thirty seconds. */
    method AgeCache(ms: nat)
      modifies this`cache
      ensures cache == M.Tick(old(Model()), ms).cache
    {
      var todo := cache.Keys;
      ghost var was := cache;
      while todo != {}
        invariant todo <= cache.Keys <= was.Keys
        invariant forall k :: k in todo ==> cache[k] == was[k]
        invariant forall k :: k in was && k !in todo ==> (k in cache <==> was[k].age + ms < CACHE_MS)
        invariant forall k :: k in cache && k !in todo ==> cache[k] == was[k].(age := was[k].age + ms)
        decreases todo
      {
        var k :| k in todo;
        todo := todo - {k};
        var e := cache[k].(age := cache[k].age + ms);
        cache := if e.age >= CACHE_MS then cache - {k} else cache[k := e];
      }
    }
  }
}

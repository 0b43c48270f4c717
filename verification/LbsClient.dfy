// The load-balancer client: one connection per address, kept across reloads, and the timer that
// reloads.

module LbsClient {
  import opened Bytes
  import opened Session
  import opened Timers

  const LOOPBACK: uint32 := 0x7F00_0001

  function Ips(list: seq<Address>): set<uint32> {
    set i | 0 <= i < |list| :: list[i].ip
  }

  /** The entries whose ip is not in the set, in order. */
  function Absent(list: seq<Address>, known: set<uint32>): seq<Address> {
    if list == [] then []
    else Absent(Front(list), known) + (if Last(list).ip in known then [] else [Last(list)])
  }

  /** The last position with the ip, or the length of the list. */
  function NewestAt(list: seq<Address>, ip: uint32): (i: nat)
    ensures i <= |list| && (i < |list| <==> ip in Ips(list))
    ensures i < |list| ==> list[i].ip == ip && forall j :: i < j < |list| ==> list[j].ip != ip
  {
    if list == [] then 0
    else if Last(list).ip == ip then
      assert list[|list| - 1].ip in Ips(list);
      |list| - 1
    else
      var i := NewestAt(Front(list), ip);
      IpsPush(Front(list), Last(list));
      assert Front(list) + [Last(list)] == list;
      if i == |list| - 1 then |list| else i
  }

  lemma NoIps(list: seq<Address>)
    requires list == []
    ensures Ips(list) == {} && forall known :: Absent(list, known) == []
  {
  }

  lemma IpsPush(list: seq<Address>, a: Address)
    ensures Ips(list + [a]) == Ips(list) + {a.ip}
  {
    var all := list + [a];
    forall x | x in Ips(list) + {a.ip}
      ensures x in Ips(all)
    {
      if x == a.ip {
        assert all[|list|].ip == x;
      } else {
        var i :| 0 <= i < |list| && list[i].ip == x;
        assert all[i].ip == x;
      }
    }
  }

  lemma NewestPush(list: seq<Address>, a: Address, ip: uint32)
    ensures NewestAt(list + [a], ip) ==
            if a.ip == ip then |list| else if ip in Ips(list) then NewestAt(list, ip) else |list| + 1
  {
    assert Front(list + [a]) == list;
  }

  /** Entry by entry: an unknown ip is connected, a known one is not. */
  lemma AbsentPush(list: seq<Address>, a: Address, known: set<uint32>)
    ensures Absent([], known) == []
    ensures Absent(list + [a], known) == Absent(list, known) + (if a.ip in known then [] else [a])
  {
    assert Front(list + [a]) == list;
  }

  /** Reloading a list connects nothing when every ip of it is known already. */
  lemma {:induction false} AbsentNone(list: seq<Address>, known: set<uint32>)
    ensures Absent(list, known) == [] <==> Ips(list) <= known
  {
    if list != [] {
      AbsentNone(Front(list), known);
      IpsPush(Front(list), Last(list));
      assert Front(list) + [Last(list)] == list;
    }
  }

  /** The resolved addresses, with the port the client was given; this host when there are none. */
  function Hosts(resolved: seq<uint32>, port: uint16): (r: seq<Address>)
    ensures r != []
  {
    if resolved == [] then [Address(LOOPBACK, port)]
    else seq(|resolved|, i requires 0 <= i < |resolved| => Address(resolved[i], port))
  }

  /** A connection as it is made for the last entry with the ip: with that entry's address, and
      already told to connect. */
  ghost predicate Made(c: UniLbsConnection, list: seq<Address>, ip: uint32, attempts: nat -> Attempt)
    reads c
  {
    && c.Valid() && ip in Ips(list)
    && c.address == list[NewestAt(list, ip)]
    && c.Now() == Session.Step(START, Event.Connect(attempts(NewestAt(list, ip))))
  }

  lemma MadeIsValid(c: UniLbsConnection, list: seq<Address>, ip: uint32, attempts: nat -> Attempt)
    requires Made(c, list, ip, attempts)
    ensures c.Valid() && c.address.ip == ip && IsNew(c.Now())
  {
  }

  lemma MadeStays(c: UniLbsConnection, list: seq<Address>, a: Address, ip: uint32, attempts: nat -> Attempt)
    requires Made(c, list, ip, attempts) && ip != a.ip
    ensures Made(c, list + [a], ip, attempts)
  {
    NewestPush(list, a, ip);
    IpsPush(list, a);
  }

  // ---- one client, many connections ----

  /** What happens to the connections of a client: a channel operation goes to all of them; anything
      else happens to one; a reload drops some and adds others. */
  datatype ClientEvent =
    | FanOut(op: Event)
    | At(ip: uint32, event: Event)
    | Reload(next: map<uint32, Conn>)

  predicate IsChannelOp(e: Event) {
    e.ChannelCreate? || e.ChannelDestroy?
  }

  /** A connection that was just made and told to connect. */
  predicate IsNew(c: Conn) {
    c.link != Up && !c.joined && !c.replied && c.past == [] && c.current == []
  }

  /** Channel operations reach a connection through the fan-out alone, and a reload leaves the
      connections it keeps as they are and adds new ones. */
  predicate ProperEvent(cs: map<uint32, Conn>, e: ClientEvent) {
    match e
    case FanOut(op) => IsChannelOp(op)
    case At(_, event) => !IsChannelOp(event)
    case Reload(next) => forall ip | ip in next :: if ip in cs then next[ip] == cs[ip] else IsNew(next[ip])
  }

  function ClientStep(cs: map<uint32, Conn>, e: ClientEvent): map<uint32, Conn> {
    match e
    case FanOut(op) => map ip | ip in cs :: Session.Step(cs[ip], op)
    case At(ip, event) => if ip in cs then cs[ip := Session.Step(cs[ip], event)] else cs
    case Reload(next) => next
  }

  function ClientRun(cs: map<uint32, Conn>, es: seq<ClientEvent>): map<uint32, Conn> {
    if es == [] then cs else ClientStep(ClientRun(cs, Front(es)), Last(es))
  }

  predicate ProperRun(cs: map<uint32, Conn>, es: seq<ClientEvent>) {
    es == [] || (ProperRun(cs, Front(es)) && ProperEvent(ClientRun(cs, Front(es)), Last(es)))
  }

  /** The client has the connection from before the first event to after the last. */
  predicate Retained(cs: map<uint32, Conn>, es: seq<ClientEvent>, ip: uint32) {
    ip in ClientRun(cs, es) && (es == [] || Retained(cs, Front(es), ip))
  }

  /** The events of a client that reach one connection. */
  function Reaching(es: seq<ClientEvent>, ip: uint32): seq<Event> {
    if es == [] then []
    else
      Reaching(Front(es), ip) +
      (match Last(es)
       case FanOut(op) => [op]
       case At(other, event) => if other == ip then [event] else []
       case Reload(_) => [])
  }

  /** A retained connection goes through exactly the events that reach it. */
  lemma {:induction false} RunsByItself(cs: map<uint32, Conn>, es: seq<ClientEvent>, ip: uint32)
    requires ProperRun(cs, es) && Retained(cs, es, ip)
    ensures ip in cs && ClientRun(cs, es)[ip] == RunFrom(cs[ip], Reaching(es, ip))
  {
    hide Session.Step;
    if es != [] {
      RunsByItself(cs, Front(es), ip);
      RunFromPush(cs[ip], Reaching(Front(es), ip), Last(es), ip);
    }
  }

  lemma RunFromPush(c: Conn, before: seq<Event>, e: ClientEvent, ip: uint32)
    ensures e.FanOut? ==> RunFrom(c, before + [e.op]) == Session.Step(RunFrom(c, before), e.op)
    ensures e.At? ==> RunFrom(c, before + [e.event]) == Session.Step(RunFrom(c, before), e.event)
    ensures before + [] == before
  {
    if e.FanOut? { assert Front(before + [e.op]) == before; }
    if e.At? { assert Front(before + [e.event]) == before; }
  }

  lemma WantedPush(before: seq<Event>, e: Event)
    ensures Wanted(before + [e]) == Wanted(before) + Asked(e)
    ensures !IsChannelOp(e) ==> Wanted(before + [e]) == Wanted(before)
  {
    assert Front(before + [e]) == before;
  }

  /** The fan-out asks every connection for the same deltas. */
  lemma {:induction false} SameOperations(cs: map<uint32, Conn>, es: seq<ClientEvent>, a: uint32, b: uint32)
    requires ProperRun(cs, es)
    ensures Wanted(Reaching(es, a)) == Wanted(Reaching(es, b))
  {
    hide Wanted, ClientStep;
    if es != [] {
      SameOperations(cs, Front(es), a, b);
      var x, y := Reaching(Front(es), a), Reaching(Front(es), b);
      match Last(es)
      case FanOut(op) =>
        WantedPush(x, op);
        WantedPush(y, op);
      case At(ip, event) =>
        WantedPush(x, event);
        WantedPush(y, event);
        assert x + [] == x && y + [] == y;
      case Reload(_) =>
        assert x + [] == x && y + [] == y;
    }
  }

  /** Any two connections that a client retains, and that stay joined, over any of its runs send the
      same deltas in it, in the same order. */
  lemma JoinedTogether(cs: map<uint32, Conn>, es: seq<ClientEvent>, a: uint32, b: uint32)
    requires ProperRun(cs, es) && Retained(cs, es, a) && Retained(cs, es, b)
    requires a in cs && StaysJoined(cs[a], Reaching(es, a)) && b in cs && StaysJoined(cs[b], Reaching(es, b))
    ensures |Deltas(cs[a].current)| <= |Deltas(ClientRun(cs, es)[a].current)|
    ensures |Deltas(cs[b].current)| <= |Deltas(ClientRun(cs, es)[b].current)|
    ensures Deltas(ClientRun(cs, es)[a].current)[|Deltas(cs[a].current)|..] ==
            Deltas(ClientRun(cs, es)[b].current)[|Deltas(cs[b].current)|..]
  {
    RunsByItself(cs, es, a);
    RunsByItself(cs, es, b);
    SameOperations(cs, es, a, b);
    FanOutAgrees(cs[a], Reaching(es, a), cs[b], Reaching(es, b));
  }

  /** The channels a client has open after a run. */
  function ClientOpen(es: seq<ClientEvent>): set<Channel> {
    if es == [] then {}
    else if Last(es).FanOut? then OpenAfter(ClientOpen(Front(es)), Last(es).op)
    else ClientOpen(Front(es))
  }

  /** The application answers every join reply, on whatever connection, with the open channels. */
  predicate ClientServes(es: seq<ClientEvent>) {
    es == [] ||
    (ClientServes(Front(es)) &&
     (Last(es).At? && Last(es).event.JoinReply? ==> AsSet(Last(es).event.listed) == ClientOpen(Front(es))))
  }

  /** If the connection is in a joined session, its load balancer holds the given channels. */
  predicate ShowsIfJoined(c: Conn, open: set<Channel>) {
    Session.Ok(c) && (c.link == Up && c.replied ==> View(c.current) == open)
  }

  lemma StepShows(c: Conn, e: Event, open: set<Channel>)
    requires ShowsIfJoined(c, open) && (e.JoinReply? ==> AsSet(e.listed) == open)
    ensures ShowsIfJoined(Session.Step(c, e), OpenAfter(open, e))
  {
    hide View;
    StepOrder(c, e);
    if Session.Step(c, e).link == Up && Session.Step(c, e).replied {
      ViewStep(c, e, open);
    }
  }

  /** In any run of a client, through reloads, losses and rejoins, every load balancer whose session is
      joined holds exactly the channels the client has open, also on a connection that was made after
      some of them were opened. */
  lemma {:induction false} AllShowOpenChannels(es: seq<ClientEvent>)
    requires ProperRun(map[], es) && ClientServes(es)
    ensures forall ip | ip in ClientRun(map[], es) :: ShowsIfJoined(ClientRun(map[], es)[ip], ClientOpen(es))
  {
    hide Session.Step, ShowsIfJoined, OpenAfter;
    if es != [] {
      var before, open := ClientRun(map[], Front(es)), ClientOpen(Front(es));
      AllShowOpenChannels(Front(es));
      match Last(es)
      case FanOut(op) =>
        forall ip | ip in before
          ensures ShowsIfJoined(Session.Step(before[ip], op), OpenAfter(open, op))
        {
          StepShows(before[ip], op, open);
        }
      case At(ip, event) =>
        if ip in before {
          StepShows(before[ip], event, open);
          NotAnOperation(open, event);
        }
      case Reload(next) =>
        forall ip | ip in next && ip !in before
          ensures ShowsIfJoined(next[ip], open)
        {
          NewShows(next[ip], open);
        }
    }
  }

  lemma NotAnOperation(open: set<Channel>, e: Event)
    requires !IsChannelOp(e)
    ensures OpenAfter(open, e) == open
  {
  }

  lemma NewShows(c: Conn, open: set<Channel>)
    requires IsNew(c)
    ensures ShowsIfJoined(c, open)
  {
  }

  // ---- the timer ----

  /** The event runs the given thing when it comes due. */
  predicate Runs(l: Loop, e: nat, what: nat) {
    e in l.events && l.events[e] in l.live && l.live[l.events[e]] == what
  }

  /** What the events run, other than those that run one thing, is what it was. */
  ghost predicate OthersStay(before: Loop, now: Loop, me: nat) {
    forall e, what | what != me :: Runs(now, e, what) <==> Runs(before, e, what)
  }

  /** The timers that exist are the same, and all but one own what they owned. */
  predicate TimersStay(before: Loop, now: Loop, but: nat) {
    && now.timers.Keys == before.timers.Keys
    && forall a | a in before.timers && a != but :: now.timers[a] == before.timers[a]
  }

  /** Assigning a temporary to a timer and destroying the temporary, as `timer_ = RepeatedTimer(...)`
      does. */
  function Replaced(l: Loop, at: nat, tmp: nat): Option<Loop>
    requires at in l.timers && tmp in l.timers
  {
    Timers.Step(Swapped(l, at, tmp), Op.Destroy(tmp))
  }

  /** It frees the event and the callback the timer had, hands it those of the temporary, and touches
      nothing else. */
  lemma ReplacedExactly(l: Loop, at: nat, tmp: nat)
    requires WF(l) && at in l.timers && tmp in l.timers && at != tmp
    ensures Replaced(l, at, tmp).Some? && WF(Replaced(l, at, tmp).value)
    ensures var m := Replaced(l, at, tmp).value;
            && m.timers == l.timers[at := l.timers[tmp]] - {tmp}
            && m.events == (if l.timers[at].event.None? then l.events else l.events - {l.timers[at].event.value})
            && m.live == (if l.timers[at].callback.None? then l.live else l.live - {l.timers[at].callback.value})
  {
    SwappedKeeps(l, at, tmp);
    StepKeeps(Swapped(l, at, tmp), Op.Destroy(tmp));
  }

  lemma ReplacedRuns(l: Loop, at: nat, tmp: nat, e: nat, what: nat)
    requires WF(l) && at in l.timers && tmp in l.timers && at != tmp
    ensures Replaced(l, at, tmp).Some?
    ensures Runs(Replaced(l, at, tmp).value, e, what) <==> Runs(l, e, what) && !HasEvent(l, at, e)
    ensures HasEvent(Replaced(l, at, tmp).value, at, e) <==> HasEvent(l, tmp, e)
  {
    ReplacedExactly(l, at, tmp);
    var m := Replaced(l, at, tmp).value;
    if e in m.events {
      var a :| HasEvent(m, a, e);
      assert HasCallback(m, a, m.events[e]);
    }
  }

  /** A client of the same loop that is not the one whose timer changed still has its own. */
  lemma OthersKeepTheirs(before: Loop, now: Loop, timer: nat, me: nat, other: nat, them: nat)
    requires OthersStay(before, now, me) && TimersStay(before, now, timer)
    requires other in before.timers && other != timer && them != me
    requires forall e :: Runs(before, e, them) <==> HasEvent(before, other, e)
    ensures forall e :: Runs(now, e, them) <==> HasEvent(now, other, e)
  {
    forall e
      ensures Runs(now, e, them) <==> HasEvent(now, other, e)
    {
      assert Runs(now, e, them) <==> Runs(before, e, them);
    }
  }

  lemma ArmRuns(l: Loop, at: nat, what: nat)
    requires WF(l) && at !in l.timers
    ensures var m := Timers.Step(l, Arm(at, what)).value;
            && (forall e, w :: Runs(m, e, w) <==> Runs(l, e, w) || (w == what && e == l.next + 1))
            && (forall e :: HasEvent(m, at, e) <==> e == l.next + 1)
            && (forall a, e | a != at :: HasEvent(m, a, e) <==> HasEvent(l, a, e))
            && (forall a, e | HasEvent(l, a, e) :: e != l.next + 1)
  {
  }

  lemma HostIps(resolved: seq<uint32>, port: uint16)
    ensures Ips(Hosts(resolved, port)) ==
            if resolved == [] then {0x7F00_0001} else set i | 0 <= i < |resolved| :: resolved[i]
  {
    var list := Hosts(resolved, port);
    if resolved == [] {
      assert list[0].ip == LOOPBACK;
    } else {
      forall i | 0 <= i < |resolved|
        ensures list[i].ip == resolved[i]
      {
      }
      forall ip
        ensures ip in Ips(list) <==> ip in set i | 0 <= i < |resolved| :: resolved[i]
      {
        if ip in Ips(list) {
          var i :| 0 <= i < |list| && list[i].ip == ip;
          assert resolved[i] == ip;
        }
        if i :| 0 <= i < |resolved| && resolved[i] == ip {
          assert list[i].ip == ip;
        }
      }
    }
  }

  lemma MadeHasPort(c: UniLbsConnection, resolved: seq<uint32>, port: uint16, ip: uint32, attempts: nat -> Attempt)
    requires Made(c, Hosts(resolved, port), ip, attempts)
    ensures c.address == Address(ip, port)
  {
  }

  class UniLbsClient {
    const loop: EventLoop
    const timer: nat                // where timer_ lives
    const me: nat                   // what the reload callback runs: ReloadLbsHosts of this client
    const port: uint16
    var serviceId: uint32
    var connections: map<uint32, UniLbsConnection?>
    ghost var connects: seq<Address>     // the addresses Connect was called for, in order

    /** No entry of the map is null, each lies under its own ip; and an event of the loop runs the
        reload callback exactly when it is the one the client's timer owns. */
    ghost predicate Valid()
      reads this, loop, set ip | ip in connections :: connections[ip]
    {
      && TimerOk()
      && (forall ip | ip in connections :: connections[ip] != null
                                           && connections[ip].address.ip == ip && connections[ip].Valid())
    }

    /** The states of the connections. */
    ghost function Conns(): map<uint32, Conn>
      reads this, loop, set ip | ip in connections :: connections[ip]
      requires Valid()
    {
      map ip | ip in connections :: connections[ip].Now()
    }

    ghost predicate TimerOk()
      reads loop
    {
      && loop.Valid() && timer in loop.timers
      && (forall e :: Runs(loop.Now(), e, me) <==> HasEvent(loop.Now(), timer, e))
    }

    /** Some event of the loop reloads this client. */
    ghost predicate Armed()
      reads loop
    {
      exists e :: Runs(loop.Now(), e, me)
    }

    /** What reloading a list does: the same connection object for every ip that stays, untouched; a
        new one, for the last entry that names it and already told to connect, for every other ip. */
    twostate predicate Reloaded(list: seq<Address>, attempts: nat -> Attempt)
      reads this, set ip | ip in connections :: connections[ip]
    {
      && connections.Keys == Ips(list)
      && (forall ip | ip in connections && ip in old(connections) :: connections[ip] == old(connections[ip]))
      && (forall ip | ip in connections && ip !in old(connections) ::
            connections[ip] != null && fresh(connections[ip]) && Made(connections[ip], list, ip, attempts))
      && connects == old(connects) + Absent(list, old(connections).Keys)
    }

    /** Reloading calls Connect exactly when the list names an ip that was not known; reloading the
        same ips changes nothing at all. */
    twostate lemma ReloadingAgain(list: seq<Address>, attempts: nat -> Attempt)
      requires Reloaded(list, attempts)
      ensures connects == old(connects) <==> Ips(list) <= old(connections).Keys
      ensures Ips(list) == old(connections).Keys ==> connections == old(connections)
    {
      var extra := Absent(list, old(connections).Keys);
      AbsentNone(list, old(connections).Keys);
      assert extra != [] ==> |connects| > |old(connects)|;
    }

    constructor (loop: EventLoop, timer: nat, me: nat, port: uint16)
      requires loop.Valid() && timer !in loop.timers
      requires forall c | c in loop.live :: loop.live[c] != me
      modifies loop
      ensures Valid() && this.loop == loop && this.timer == timer && this.me == me && this.port == port
      ensures connections == map[] && serviceId == 0 && connects == [] && !Armed()
      ensures loop.events == old(loop.events) && loop.live == old(loop.live)
    {
      this.loop, this.timer, this.me, this.port := loop, timer, me, port;
      serviceId, connections, connects := 0, map[], [];
      new;
      loop.Empty(timer);
    }

    method ReloadLbsAddresses(list: seq<Address>, attempts: nat -> Attempt)
      requires Valid()
      modifies this`connections, this`connects
      ensures Valid() && Reloaded(list, attempts)
      ensures ProperEvent(old(Conns()), Reload(Conns()))
    {
      hide WF, NewestAt, Absent, Ips, Made, TimerOk;
      var next := CollectConnections(list, attempts);
      forall ip | ip in next && ip !in old(connections)
        ensures next[ip].Valid() && next[ip].address.ip == ip && IsNew(next[ip].Now())
      {
        MadeIsValid(next[ip], list, ip, attempts);
      }
      connections := next;
    }

    /** The connections for a list: those that are there already are moved out of the map of the client,
        which keeps a null in their place, and the others are made. */
    method CollectConnections(list: seq<Address>, attempts: nat -> Attempt)
        returns (next: map<uint32, UniLbsConnection?>)
      requires Valid()
      modifies this`connections, this`connects
      ensures next.Keys == Ips(list) && connects == old(connects) + Absent(list, old(connections).Keys)
      ensures forall ip | ip in next && ip in old(connections) :: next[ip] == old(connections)[ip]
      ensures forall ip | ip in next && ip !in old(connections) ::
                next[ip] != null && fresh(next[ip]) && Made(next[ip], list, ip, attempts)
    {
      hide WF, NewestAt, Absent, Ips, Made;
      ghost var known := connections;
      next := map[];
      NoIps(list[..0]);
      for i := 0 to |list|
        invariant next.Keys == Ips(list[..i]) && connections.Keys == known.Keys
        invariant forall ip | ip in known :: connections[ip] == if ip in next then null else known[ip]
        invariant forall ip | ip in next && ip in known :: next[ip] == known[ip]
        invariant forall ip | ip in next && ip !in known ::
                    next[ip] != null && fresh(next[ip]) && Made(next[ip], list[..i], ip, attempts)
        invariant connects == old(connects) + Absent(list[..i], known.Keys)
      {
        var addr := list[i];
        ghost var before, made := list[..i], next;
        assert list[..i + 1] == before + [addr];
        IpsPush(before, addr);
        AbsentPush(before, addr, known.Keys);
        if addr.ip in connections {
          if addr.ip !in next {
            next := next[addr.ip := connections[addr.ip]];
            connections := connections[addr.ip := null];
          }
        } else {
          var conn := MakeConnection(addr, attempts(i), before, i, attempts);
          next := next[addr.ip := conn];
        }
        forall ip | ip in next && ip !in known && ip != addr.ip
          ensures Made(next[ip], list[..i + 1], ip, attempts)
        {
          MadeStays(made[ip], before, addr, ip, attempts);
        }
      }
      assert list[..|list|] == list;
    }

    /** Makes the connection for entry i of a list and tells it to connect. */
    method MakeConnection(addr: Address, attempt: Attempt, ghost before: seq<Address>, ghost i: nat,
                          ghost attempts: nat -> Attempt)
        returns (conn: UniLbsConnection)
      requires i == |before| && attempt == attempts(i)
      modifies this`connects
      ensures fresh(conn) && Made(conn, before + [addr], addr.ip, attempts) && connects == old(connects) + [addr]
    {
      conn := new UniLbsConnection(addr);
      var _ := conn.Connect(attempt);
      connects := connects + [addr];
      NewestPush(before, addr, addr.ip);
      IpsPush(before, addr);
    }

    /** Resolves the host and reloads what it names. */
    method ReloadLbsHosts(resolved: seq<uint32>, attempts: nat -> Attempt)
      requires Valid()
      modifies this`connections, this`connects
      ensures Valid() && Reloaded(Hosts(resolved, port), attempts)
      ensures connections.Keys == if resolved == [] then {0x7F00_0001} else set i | 0 <= i < |resolved| :: resolved[i]
      ensures forall ip | ip in connections && ip !in old(connections) ::
        connections[ip] != null && connections[ip].address == Address(ip, port)
      ensures
        var named := if resolved == [] then [0x7F00_0001] else resolved;
        connects == old(connects) +
                    Absent(seq(|named|, i requires 0 <= i < |named| => Address(named[i], port)), old(connections).Keys)
    {
      ReloadLbsAddresses(Hosts(resolved, port), attempts);
      HostIps(resolved, port);
      ghost var named := if resolved == [] then [0x7F00_0001] else resolved;
      assert Hosts(resolved, port) == seq(|named|, i requires 0 <= i < |named| => Address(named[i], port));
      forall ip | ip in connections && ip !in old(connections)
        ensures connections[ip].address == Address(ip, port)
      {
        MadeHasPort(connections[ip], resolved, port, ip, attempts);
      }
    }

    /** Assigns an empty timer to the client's: whatever it had is freed. */
    method DropTimer(tmp: nat)
      requires TimerOk() && tmp !in loop.timers
      modifies loop
      ensures TimersStay(old(loop.Now()), loop.Now(), timer)
      ensures TimerOk() && OthersStay(old(loop.Now()), loop.Now(), me) && !Armed()
    {
      hide WF;
      ghost var l := loop.Now();
      loop.Empty(tmp);
      ghost var with := loop.Now();
      assert forall e, what :: Runs(with, e, what) <==> Runs(l, e, what);
      ReplaceTimer(tmp);
      forall e, what
        ensures Runs(loop.Now(), e, what) <==> Runs(l, e, what) && !HasEvent(l, timer, e)
        ensures !HasEvent(loop.Now(), timer, e)
      {
        ReplacedRuns(with, timer, tmp, e, what);
      }
    }

    /** Assigns a new timer that reloads this client to the client's: what that had is freed. */
    method NewTimer(tmp: nat)
      requires TimerOk() && tmp !in loop.timers
      modifies loop
      ensures TimersStay(old(loop.Now()), loop.Now(), timer)
      ensures TimerOk() && OthersStay(old(loop.Now()), loop.Now(), me)
      ensures exists e :: Runs(loop.Now(), e, me) && forall d :: Runs(loop.Now(), d, me) ==> d == e
    {
      hide WF;
      ghost var l := loop.Now();
      loop.Arm(tmp, me);
      ghost var with := loop.Now();
      ArmRuns(l, tmp, me);
      ReplaceTimer(tmp);
      ghost var armed := l.next + 1;
      forall e, what
        ensures Runs(loop.Now(), e, what) <==> Runs(with, e, what) && !HasEvent(with, timer, e)
        ensures HasEvent(loop.Now(), timer, e) <==> HasEvent(with, tmp, e)
      {
        ReplacedRuns(with, timer, tmp, e, what);
      }
      assert HasEvent(with, tmp, armed) && !HasEvent(with, timer, armed);
      assert Runs(with, armed, me);
      assert Runs(loop.Now(), armed, me);
    }

    method ReplaceTimer(tmp: nat)
      requires loop.Valid() && timer in loop.timers && tmp in loop.timers && timer != tmp
      modifies loop
      ensures loop.Valid() && Some(loop.Now()) == Replaced(old(loop.Now()), timer, tmp)
      ensures loop.timers == old(loop.timers)[timer := old(loop.timers[tmp])] - {tmp}
    {
      ReplacedExactly(loop.Now(), timer, tmp);
      loop.Assign(timer, tmp);
      loop.Destroy(tmp);
    }

    /** Drops the timer, then reloads the list if the service is known. Other timers of the loop are
        not touched. */
    method UpdateLbsAddresses(list: seq<Address>, attempts: nat -> Attempt, tmp: nat)
      requires Valid() && tmp !in loop.timers
      modifies this`connections, this`connects, loop
      ensures Valid() && !Armed()
      ensures OthersStay(old(loop.Now()), loop.Now(), me) && TimersStay(old(loop.Now()), loop.Now(), timer)
      ensures if serviceId != 0 then Reloaded(list, attempts)
              else connections == old(connections) && connects == old(connects)
    {
      hide TimerOk, OthersStay, TimersStay, Armed, Made;
      DropTimer(tmp);
      if serviceId != 0 {
        ReloadLbsAddresses(list, attempts);
      }
    }

    /** Takes the service, reloads what the host resolves to, and starts the reload timer anew. */
    method SetServiceInformation(id: uint32, resolved: seq<uint32>, attempts: nat -> Attempt, tmp: nat)
      requires Valid() && tmp !in loop.timers
      modifies this`serviceId, this`connections, this`connects, loop
      ensures Valid() && serviceId == id && Reloaded(Hosts(resolved, port), attempts)
      ensures connections.Keys == if resolved == [] then {0x7F00_0001} else set i | 0 <= i < |resolved| :: resolved[i]
      ensures forall ip | ip in connections && ip !in old(connections) ::
        connections[ip] != null && connections[ip].address == Address(ip, port)
      ensures
        var named := if resolved == [] then [0x7F00_0001] else resolved;
        connects == old(connects) +
                    Absent(seq(|named|, i requires 0 <= i < |named| => Address(named[i], port)), old(connections).Keys)
      ensures OthersStay(old(loop.Now()), loop.Now(), me) && TimersStay(old(loop.Now()), loop.Now(), timer)
      ensures exists e :: Runs(loop.Now(), e, me) && forall d :: Runs(loop.Now(), d, me) ==> d == e
    {
      hide TimerOk, OthersStay, TimersStay, Made, Runs;
      serviceId := id;
      ReloadLbsHosts(resolved, attempts);
      NewTimer(tmp);
    }

    /** An event of the loop comes due. */
    method Tick(e: nat, resolved: seq<uint32>, attempts: nat -> Attempt)
      requires Valid() && e in loop.events
      modifies this`connections, this`connects
      ensures Valid()
      ensures if HasEvent(loop.Now(), timer, e) then Reloaded(Hosts(resolved, port), attempts)
              else connections == old(connections) && connects == old(connects)
      ensures HasEvent(loop.Now(), timer, e) ==>
        connections.Keys == if resolved == [] then {0x7F00_0001} else set i | 0 <= i < |resolved| :: resolved[i]
      ensures HasEvent(loop.Now(), timer, e) ==>
        forall ip | ip in connections && ip !in old(connections) ::
          connections[ip] != null && connections[ip].address == Address(ip, port)
      ensures HasEvent(loop.Now(), timer, e) ==>
        var named := if resolved == [] then [0x7F00_0001] else resolved;
        connects == old(connects) +
                    Absent(seq(|named|, i requires 0 <= i < |named| => Address(named[i], port)), old(connections).Keys)
    {
      hide WF, Made;
      var what := loop.Fire(e);
      if what == me {
        ReloadLbsHosts(resolved, attempts);
      }
    }

    /** Any number of ticks. Without an armed timer the address set stays what it was. */
    method RunLoop(due: seq<nat>, resolved: seq<uint32>, attempts: nat -> Attempt)
      requires Valid()
      modifies this`connections, this`connects
      ensures Valid()
      ensures !Armed() ==> connections == old(connections) && connects == old(connects)
    {
      hide WF, HasEvent, Made;
      for i := 0 to |due|
        invariant Valid()
        invariant !Armed() ==> connections == old(connections) && connects == old(connects)
      {
        if due[i] in loop.events {
          Tick(due[i], resolved, attempts);
        }
      }
    }

    /** Passes a created channel on to every connection: each is told exactly once. */
    method DoChannelCreate(c: Channel)
      requires Valid()
      modifies set ip | ip in connections :: connections[ip]
      ensures Valid()
      ensures Conns() == ClientStep(old(Conns()), FanOut(ChannelCreate(c)))
    {
      hide TimerOk, Session.Step;
      var todo := connections.Keys;
      while todo != {}
        invariant todo <= connections.Keys && Valid()
        invariant forall ip | ip in connections ::
                    connections[ip].Now() == if ip in todo then old(connections[ip].Now())
                                             else Session.Step(old(connections[ip].Now()), ChannelCreate(c))
        decreases |todo|
      {
        var ip :| ip in todo;
        connections[ip].DoChannelCreate(c);
        todo := todo - {ip};
      }
    }

    method DoChannelDestroy(c: Channel)
      requires Valid()
      modifies set ip | ip in connections :: connections[ip]
      ensures Valid()
      ensures Conns() == ClientStep(old(Conns()), FanOut(ChannelDestroy(c)))
    {
      hide TimerOk, Session.Step;
      var todo := connections.Keys;
      while todo != {}
        invariant todo <= connections.Keys && Valid()
        invariant forall ip | ip in connections ::
                    connections[ip].Now() == if ip in todo then old(connections[ip].Now())
                                             else Session.Step(old(connections[ip].Now()), ChannelDestroy(c))
        decreases |todo|
      {
        var ip :| ip in todo;
        connections[ip].DoChannelDestroy(c);
        todo := todo - {ip};
      }
    }
  }
}

// One connection to a load balancer: the join handshake, pings and channel deltas, over a TCP
// client that reconnects by itself.

module Session {
  import opened Bytes

  datatype Channel = Channel(vid: uint32, name: string)

  /** IsConnected() is Up; connecting_ is Connecting. */
  datatype Link = Down | Connecting | Up

  /** What is written to the socket. */
  datatype Packet =
    | JoinRequest
    | FullChannelList(channels: seq<Channel>)
    | Ping
    | Added(c: Channel)
    | Removed(c: Channel)

  /** How TcpClient::Connect ends: under way; without a socket to try with; or refused at once, in
      which case the connection attempt has already been reported as failed. */
  datatype Attempt = Starts | NoSocket | Refused

  /** What happens to a connection. Clocks, the network and the application are part of the event:
      whether the keep-alive timer finds the peer silent for too long, whether a retry is due, whether
      an attempt starts and how it ends, and the channel list the application hands over. */
  datatype Event =
    | Connect(attempt: Attempt)
    | Connected(ok: bool)
    | SocketError
    | Timer(idle: bool, due: bool, attempt: Attempt)
    | JoinReply(ok: bool, listed: seq<Channel>)
    | ChannelCreate(c: Channel)
    | ChannelDestroy(c: Channel)

  /** The connection with its TCP client. `joined` is the field joined_. The rest is the history its
      meaning is about: whether this session has had an OK join reply, what earlier sessions sent, and
      what the current (or, while down, the last) one has sent. */
  datatype Conn = Conn(link: Link, joined: bool, replied: bool, past: seq<seq<Packet>>, current: seq<Packet>)

  const START := Conn(Down, false, false, [], [])

  /** SendPacket: dropped unless connected. */
  function Send(c: Conn, p: Packet): Conn {
    if c.link == Up then c.(current := c.current + [p]) else c
  }

  /** TcpClient::Connect: an attempt in progress is left alone; an open connection is dropped
      without a callback. */
  function Connects(c: Conn, attempt: Attempt): Conn {
    if c.link == Connecting then c
    else
      match attempt
      case Starts => c.(link := Connecting)
      case NoSocket => c.(link := Down)
      case Refused => c.(link := Down, joined := false)
  }

  function Step(c: Conn, e: Event): Conn {
    match e
    case Connect(attempt) => Connects(c, attempt)
    case Connected(ok) =>
      if c.link != Connecting then c
      else if ok then Send(Conn(Up, c.joined, false, c.past + [c.current], []), JoinRequest)
      else c.(link := Down, joined := false)
    case SocketError =>
      if c.link != Up then c else c.(link := Down, joined := false)
    case Timer(idle, due, attempt) =>
      if c.link == Up then
        if idle then c.(link := Down)            // closed without any callback
        else if c.joined then Send(c, Ping) else c
      else if c.link == Down && due then Connects(c, attempt)
      else c
    case JoinReply(ok, listed) =>
      if c.link == Up && ok then Send(c.(joined := true, replied := true), FullChannelList(listed)) else c
    case ChannelCreate(ch) => if c.joined then Send(c, Added(ch)) else c
    case ChannelDestroy(ch) => if c.joined then Send(c, Removed(ch)) else c
  }

  function Last<T>(s: seq<T>): T
    requires s != []
  {
    s[|s| - 1]
  }

  function Front<T>(s: seq<T>): seq<T>
    requires s != []
  {
    s[..|s| - 1]
  }

  function RunFrom(c: Conn, es: seq<Event>): Conn {
    if es == [] then c else Step(RunFrom(c, Front(es)), Last(es))
  }

  function Run(es: seq<Event>): Conn {
    RunFrom(START, es)
  }

  // ---- the handshake: a ping or a delta only after a full channel list of the same session ----

  predicate NeedsJoin(p: Packet) {
    p.Ping? || p.Added? || p.Removed?
  }

  predicate HasList(s: seq<Packet>) {
    s != [] && (Last(s).FullChannelList? || HasList(Front(s)))
  }

  predicate Orderly(s: seq<Packet>) {
    s == [] || (Orderly(Front(s)) && (NeedsJoin(Last(s)) ==> HasList(Front(s))))
  }

  predicate AllOrderly(ss: seq<seq<Packet>>) {
    ss == [] || (AllOrderly(Front(ss)) && Orderly(Last(ss)))
  }

  /** Every session of the connection, the current one included, is orderly. */
  predicate InOrder(c: Conn) {
    AllOrderly(c.past) && Orderly(c.current)
  }

  lemma {:induction false} HasListMeans(s: seq<Packet>)
    ensures HasList(s) <==> exists j :: 0 <= j < |s| && s[j].FullChannelList?
  {
    if s != [] {
      HasListMeans(Front(s));
      if j :| 0 <= j < |s| && s[j].FullChannelList? && j < |s| - 1 {
        assert Front(s)[j] == s[j];
      }
    }
  }

  /** What Orderly says, position by position. */
  lemma {:induction false} OrderlyMeans(s: seq<Packet>, i: nat)
    requires Orderly(s) && i < |s| && NeedsJoin(s[i])
    ensures exists j :: 0 <= j < i && s[j].FullChannelList?
  {
    HasListMeans(s[..i]);
    if i < |s| - 1 {
      OrderlyMeans(Front(s), i);
      assert Front(s)[..i] == s[..i];
    }
    assert HasList(s[..i]) ==> exists j :: 0 <= j < |s[..i]| && s[..i][j].FullChannelList?;
    if HasList(s[..i]) {
      var j :| 0 <= j < |s[..i]| && s[..i][j].FullChannelList?;
      assert s[j].FullChannelList?;
    }
  }

  /** joined_ is set although the connection is not in a session that has been joined. */
  predicate Carried(c: Conn) {
    c.joined && !(c.link == Up && c.replied)
  }

  /** The event makes a connected client whose joined_ is set send a ping or a delta. */
  predicate Triggers(e: Event) {
    (e.Timer? && !e.idle) || e.ChannelCreate? || e.ChannelDestroy?
  }

  /** A joined session is closed without a callback: by the idle timer or by another Connect. */
  predicate SilentLoss(c: Conn, e: Event) {
    c.link == Up && c.replied && ((e.Timer? && e.idle) || (e.Connect? && !e.attempt.Refused?))
  }

  /** The event makes joined_ tell the truth again. */
  predicate Settles(c: Conn, e: Event) {
    match e
    case Connect(attempt) => attempt.Refused? && c.link != Connecting
    case Timer(_, due, attempt) => attempt.Refused? && c.link == Down && due
    case Connected(ok) => !ok && c.link == Connecting
    case SocketError => c.link == Up
    case JoinReply(ok, _) => ok && c.link == Up
    case _ => false
  }

  predicate Ok(c: Conn) {
    && (c.link == Up ==> (c.replied <==> HasList(c.current)))
    && (c.link == Up && c.replied ==> c.joined)
  }

  lemma PushOrderly(s: seq<Packet>, p: Packet)
    ensures Orderly(s + [p]) <==> Orderly(s) && (NeedsJoin(p) ==> HasList(s))
    ensures HasList(s + [p]) <==> HasList(s) || p.FullChannelList?
  {
    assert Front(s + [p]) == s;
  }

  lemma SendCases(c: Conn, p: Packet)
    requires c.link == Up
    ensures InOrder(Send(c, p)) <==> InOrder(c) && (NeedsJoin(p) ==> HasList(c.current))
    ensures HasList(Send(c, p).current) <==> HasList(c.current) || p.FullChannelList?
  {
    PushOrderly(c.current, p);
  }

  lemma NewSessionCases(c: Conn)
    ensures var d := Send(Conn(Up, c.joined, false, c.past + [c.current], []), JoinRequest);
            (InOrder(d) <==> InOrder(c)) && !HasList(d.current)
  {
    var c1 := Conn(Up, c.joined, false, c.past + [c.current], []);
    SendCases(c1, JoinRequest);
    assert Front(c1.past) == c.past;
  }

  /** One step. It breaks the order exactly when it makes a connected client whose joined_ was
      carried over send a ping or a delta; and it leaves joined_ wrong exactly when it silently
      loses a joined session or joined_ was wrong and nothing settles it. */
  lemma StepOrder(c: Conn, e: Event)
    requires Ok(c)
    ensures Ok(Step(c, e))
    ensures InOrder(Step(c, e)) <==> InOrder(c) && !(c.link == Up && Carried(c) && Triggers(e))
    ensures Carried(Step(c, e)) <==> SilentLoss(c, e) || (Carried(c) && !Settles(c, e))
  {
    hide HasList, Orderly, AllOrderly;
    match e
    case Connected(ok) => if c.link == Connecting && ok { NewSessionCases(c); }
    case JoinReply(ok, listed) =>
      if c.link == Up && ok { SendCases(c.(joined := true, replied := true), FullChannelList(listed)); }
    case ChannelCreate(ch) => if c.link == Up { SendCases(c, Added(ch)); }
    case ChannelDestroy(ch) => if c.link == Up { SendCases(c, Removed(ch)); }
    case Timer(_, _, _) => if c.link == Up { SendCases(c, Ping); }
    case _ =>
  }

  /** A session that opens with a join request and sends no other. */
  predicate OneJoin(s: seq<Packet>) {
    s != [] && if |s| == 1 then s[0].JoinRequest? else !Last(s).JoinRequest? && OneJoin(Front(s))
  }

  /** The first entry of the past is what was sent before any session: nothing. */
  predicate AllJoin(ss: seq<seq<Packet>>) {
    ss != [] && if |ss| == 1 then ss[0] == [] else OneJoin(Last(ss)) && AllJoin(Front(ss))
  }

  predicate Joins(c: Conn) {
    if c.past == [] then c.current == [] && c.link != Up else AllJoin(c.past) && OneJoin(c.current)
  }

  lemma SendJoins(c: Conn, p: Packet)
    requires Joins(c) && c.link == Up && !p.JoinRequest?
    ensures Joins(Send(c, p))
  {
    assert Front(c.current + [p]) == c.current;
  }

  lemma NewSessionJoins(c: Conn)
    requires Joins(c)
    ensures Joins(Send(Conn(Up, c.joined, false, c.past + [c.current], []), JoinRequest))
  {
    assert Front(c.past + [c.current]) == c.past;
    assert [] + [JoinRequest] == [JoinRequest];
  }

  lemma StepJoins(c: Conn, e: Event)
    requires Joins(c)
    ensures Joins(Step(c, e))
  {
    hide OneJoin, AllJoin;
    match e
    case Connected(ok) => NewSessionJoins(c);
    case JoinReply(ok, listed) =>
      if c.link == Up && ok { SendJoins(c.(joined := true, replied := true), FullChannelList(listed)); }
    case ChannelCreate(ch) => if c.link == Up { SendJoins(c, Added(ch)); }
    case ChannelDestroy(ch) => if c.link == Up { SendJoins(c, Removed(ch)); }
    case Timer(_, _, _) => if c.link == Up { SendJoins(c, Ping); }
    case _ =>
  }

  /** In any run every session starts with the only join request it sends, and nothing is sent
      outside a session. */
  lemma {:induction false} SessionsStartWithJoin(es: seq<Event>)
    ensures Joins(Run(es))
  {
    hide Step, OneJoin, AllJoin;
    if es != [] {
      SessionsStartWithJoin(Front(es));
      StepJoins(Run(Front(es)), Last(es));
    }
  }

  /** No event from position i on up to k settles joined_. */
  predicate Unsettled(es: seq<Event>, i: nat, k: nat)
    requires i <= k <= |es|
    decreases k
  {
    i == k || (Unsettled(es, i, k - 1) && !Settles(Run(es[..k - 1]), es[k - 1]))
  }

  /** A session was silently lost at i and nothing settled joined_ before k. */
  predicate LostBefore(es: seq<Event>, i: nat, k: nat)
    requires i < k <= |es|
  {
    SilentLoss(Run(es[..i]), es[i]) && Unsettled(es, i + 1, k)
  }

  ghost predicate Stale(es: seq<Event>, k: nat)
    requires k <= |es|
  {
    exists i :: 0 <= i < k && LostBefore(es, i, k)
  }

  lemma RunPush(es: seq<Event>, k: nat)
    requires k < |es|
    ensures Run(es[..k + 1]) == Step(Run(es[..k]), es[k])
  {
    assert Front(es[..k + 1]) == es[..k];
  }

  lemma RunThen(es: seq<Event>, e: Event)
    ensures Run(es + [e]) == Step(Run(es), e)
  {
    assert Front(es + [e]) == es;
  }

  /** joined_ is wrong exactly when some joined session was silently lost and nothing has settled it. */
  lemma {:induction false} CarriedMeans(es: seq<Event>, k: nat)
    requires k <= |es|
    ensures Ok(Run(es[..k]))
    ensures Carried(Run(es[..k])) <==> Stale(es, k)
    decreases k
  {
    if k > 0 {
      var j := k - 1;
      CarriedMeans(es, j);
      RunPush(es, j);
      StepOrder(Run(es[..j]), es[j]);
      if SilentLoss(Run(es[..j]), es[j]) {
        assert LostBefore(es, j, k);
      }
      if Stale(es, j) && !Settles(Run(es[..j]), es[j]) {
        var i :| 0 <= i < j && LostBefore(es, i, j);
        assert LostBefore(es, i, k);
      }
      if Stale(es, k) {
        var i :| 0 <= i < k && LostBefore(es, i, k);
        assert i < j ==> LostBefore(es, i, j);
      }
    }
  }

  /** Event k sends a ping or a delta on a session that was never joined. */
  ghost predicate Breaks(es: seq<Event>, k: nat)
    requires k < |es|
  {
    Run(es[..k]).link == Up && Triggers(es[k]) && Stale(es, k)
  }

  lemma {:induction false} OrderUpTo(es: seq<Event>, k: nat)
    requires k <= |es|
    ensures InOrder(Run(es[..k])) <==> forall j :: 0 <= j < k ==> !Breaks(es, j)
    decreases k
  {
    hide Step, RunFrom, InOrder, Carried, Stale, Ok;
    if k == 0 {
      StartInOrder(es[..0]);
    } else {
      var j := k - 1;
      OrderUpTo(es, j);
      RunPush(es, j);
      CarriedMeans(es, j);
      StepOrder(Run(es[..j]), es[j]);
      assert InOrder(Run(es[..k])) <==> InOrder(Run(es[..j])) && !Breaks(es, j);
    }
  }

  lemma StartInOrder(es: seq<Event>)
    requires es == []
    ensures InOrder(Run(es))
  {
  }

  /** The handshake over whole runs. Every ping and delta follows a full channel list of its own
      session exactly when no event finds the client connected, asks for a ping or a delta, and comes
      after a silent loss of a joined session that nothing has settled. */
  lemma PingsFollowJoin(es: seq<Event>)
    ensures InOrder(Run(es)) <==> forall k :: 0 <= k < |es| ==> !Breaks(es, k)
  {
    OrderUpTo(es, |es|);
    assert es[..|es|] == es;
  }

  /** In particular it holds of every run in which each loss is reported before the next connect. */
  lemma ReportedLossesKeepOrder(es: seq<Event>)
    requires forall i :: 0 <= i < |es| ==> !SilentLoss(Run(es[..i]), es[i])
    ensures InOrder(Run(es))
    ensures Run(es).joined ==> Run(es).link == Up && HasList(Run(es).current)
  {
    forall i, k | 0 <= i < k <= |es|
      ensures !LostBefore(es, i, k)
    {
      assert !SilentLoss(Run(es[..i]), es[i]);
    }
    PingsFollowJoin(es);
    CarriedMeans(es, |es|);
    assert es[..|es|] == es;
  }

  const JOINING := [Connect(Starts), Connected(true), JoinReply(true, [])]
  const LOSING := [Timer(true, false, NoSocket), Timer(false, true, Starts), Connected(true)]

  lemma AfterJoining()
    ensures Run(JOINING) == Conn(Up, true, true, [[]], [JoinRequest, FullChannelList([])])
  {
    RunThen([], Connect(Starts));
    RunThen([Connect(Starts)], Connected(true));
    RunThen([Connect(Starts), Connected(true)], JoinReply(true, []));
  }

  lemma AfterLosing()
    ensures Run(JOINING + LOSING) == Conn(Up, true, false, [[], [JoinRequest, FullChannelList([])]], [JoinRequest])
  {
    AfterJoining();
    var s1, s2 := JOINING + [LOSING[0]], JOINING + [LOSING[0]] + [LOSING[1]];
    RunThen(JOINING, LOSING[0]);
    RunThen(s1, LOSING[1]);
    RunThen(s2, LOSING[2]);
    assert JOINING + LOSING == s2 + [LOSING[2]];
  }

  /** It does not hold of every run: the idle timer closes a joined session, the retry succeeds, and
      the next tick of the timer pings a load balancer that has not answered the new join request. */
  lemma PingBeforeJoin()
    ensures var c := Run(JOINING + LOSING + [Timer(false, false, NoSocket)]);
            c.current == [JoinRequest, Ping] && !InOrder(c)
  {
    AfterLosing();
    RunThen(JOINING + LOSING, Timer(false, false, NoSocket));
    PushOrderly([JoinRequest], Ping);
  }

  // ---- what the load balancer knows ----

  function AsSet<T>(s: seq<T>): set<T> {
    set x | x in s
  }

  /** The channels a load balancer holds after reading a session. */
  function View(s: seq<Packet>): set<Channel> {
    if s == [] then {}
    else
      match Last(s)
      case FullChannelList(channels) => AsSet(channels)
      case Added(c) => View(Front(s)) + {c}
      case Removed(c) => View(Front(s)) - {c}
      case _ => View(Front(s))
  }

  /** The channels that are open after an event. */
  function OpenAfter(open: set<Channel>, e: Event): set<Channel> {
    match e
    case ChannelCreate(c) => open + {c}
    case ChannelDestroy(c) => open - {c}
    case _ => open
  }

  /** The channels created and not destroyed in a run. */
  function Open(es: seq<Event>): set<Channel> {
    if es == [] then {} else OpenAfter(Open(Front(es)), Last(es))
  }

  /** The application answers every OK join reply with the channels that are open. */
  predicate Serves(es: seq<Event>) {
    es == [] || (Serves(Front(es)) && (Last(es).JoinReply? ==> AsSet(Last(es).listed) == Open(Front(es))))
  }

  lemma ViewOfSend(c: Conn, p: Packet)
    requires c.link == Up
    ensures View(Send(c, p).current) ==
            match p
            case FullChannelList(channels) => AsSet(channels)
            case Added(ch) => View(c.current) + {ch}
            case Removed(ch) => View(c.current) - {ch}
            case _ => View(c.current)
  {
    assert Front(c.current + [p]) == c.current;
  }

  lemma ViewStep(c: Conn, e: Event, before: set<Channel>)
    requires Ok(c)
    requires c.link == Up && c.replied ==> View(c.current) == before
    requires e.JoinReply? ==> AsSet(e.listed) == before
    requires Step(c, e).link == Up && Step(c, e).replied
    ensures View(Step(c, e).current) == OpenAfter(before, e)
  {
    match e
    case JoinReply(ok, listed) =>
      if ok { ViewOfSend(c.(joined := true, replied := true), FullChannelList(listed)); }
    case ChannelCreate(ch) => ViewOfSend(c, Added(ch));
    case ChannelDestroy(ch) => ViewOfSend(c, Removed(ch));
    case Timer(_, _, _) => ViewOfSend(c, Ping);
    case _ =>
  }

  /** Once a session is joined, its full list and deltas always add up to the open channels. */
  lemma {:induction false} ViewIsCurrent(es: seq<Event>)
    requires Serves(es)
    ensures Ok(Run(es))
    ensures Run(es).link == Up && Run(es).replied ==> View(Run(es).current) == Open(es)
  {
    if es != [] {
      var c := Run(Front(es));
      ViewIsCurrent(Front(es));
      StepOrder(c, Last(es));
      if Run(es).link == Up && Run(es).replied {
        ViewStep(c, Last(es), Open(Front(es)));
      }
    }
  }

  // ---- the deltas of a fan-out ----

  function Deltas(s: seq<Packet>): seq<Packet> {
    if s == [] then []
    else Deltas(Front(s)) + (if Last(s).Added? || Last(s).Removed? then [Last(s)] else [])
  }

  /** The delta a channel operation stands for. */
  function Asked(e: Event): seq<Packet> {
    match e
    case ChannelCreate(c) => [Added(c)]
    case ChannelDestroy(c) => [Removed(c)]
    case _ => []
  }

  function Wanted(es: seq<Event>): seq<Packet> {
    if es == [] then [] else Wanted(Front(es)) + Asked(Last(es))
  }

  /** Connected and joined, from before the first event to after the last. */
  predicate StaysJoined(c: Conn, es: seq<Event>) {
    && RunFrom(c, es).link == Up && RunFrom(c, es).joined
    && (es == [] || StaysJoined(c, Front(es)))
  }

  lemma DeltasOfSend(c: Conn, p: Packet)
    requires c.link == Up
    ensures Deltas(Send(c, p).current) == Deltas(c.current) + (if p.Added? || p.Removed? then [p] else [])
  {
    assert Front(c.current + [p]) == c.current;
  }

  lemma DeltasOfStep(c: Conn, e: Event)
    requires c.link == Up && c.joined && Step(c, e).link == Up
    ensures Step(c, e).past == c.past && Deltas(Step(c, e).current) == Deltas(c.current) + Asked(e)
  {
    hide Deltas;
    assert Deltas(c.current) + [] == Deltas(c.current);
    match e
    case JoinReply(ok, listed) =>
      if ok { DeltasOfSend(c.(joined := true, replied := true), FullChannelList(listed)); }
    case ChannelCreate(ch) => DeltasOfSend(c, Added(ch));
    case ChannelDestroy(ch) => DeltasOfSend(c, Removed(ch));
    case Timer(_, _, _) => DeltasOfSend(c, Ping);
    case _ =>
  }

  /** While a connection stays joined it sends exactly the deltas of the channel operations, in
      order, and stays in one session. */
  lemma {:induction false} DeltasFollowOperations(c: Conn, es: seq<Event>)
    requires StaysJoined(c, es)
    ensures RunFrom(c, es).past == c.past
    ensures Deltas(RunFrom(c, es).current) == Deltas(c.current) + Wanted(es)
  {
    hide Step, Deltas, Asked;
    if es == [] {
      assert Deltas(c.current) + [] == Deltas(c.current);
    } else {
      DeltasFollowOperations(c, Front(es));
      assert StaysJoined(c, Front(es));
      DeltasOfStep(RunFrom(c, Front(es)), Last(es));
      assert (Deltas(c.current) + Wanted(Front(es))) + Asked(Last(es)) == Deltas(c.current) + Wanted(es);
    }
  }

  /** Two connections joined throughout the same channel operations send the same deltas, whatever
      else happens to either of them. */
  lemma FanOutAgrees(c: Conn, es: seq<Event>, d: Conn, fs: seq<Event>)
    requires StaysJoined(c, es) && StaysJoined(d, fs) && Wanted(es) == Wanted(fs)
    ensures |Deltas(c.current)| <= |Deltas(RunFrom(c, es).current)|
    ensures |Deltas(d.current)| <= |Deltas(RunFrom(d, fs).current)|
    ensures Deltas(RunFrom(c, es).current)[|Deltas(c.current)|..] ==
            Deltas(RunFrom(d, fs).current)[|Deltas(d.current)|..]
  {
    hide Step, RunFrom, Deltas, Wanted, StaysJoined;
    DeltasFollowOperations(c, es);
    DeltasFollowOperations(d, fs);
    assert (Deltas(c.current) + Wanted(es))[|Deltas(c.current)|..] == Wanted(es);
    assert (Deltas(d.current) + Wanted(fs))[|Deltas(d.current)|..] == Wanted(fs);
  }

  // ---- losing a silent peer ----

  /** Whatever has happened before: when the keep-alive timer finds the peer of an open connection silent
      for too long, the connection is closed, joined or not; and once a retry that is due starts and
      succeeds, there is a new session, so far of the join request alone. */
  lemma SilentPeerIsReplaced(es: seq<Event>, due: bool, attempt: Attempt, idle: bool)
    requires Run(es).link == Up
    ensures var lost := es + [Timer(true, due, attempt)];
            && Run(lost).link == Down && Run(lost).current == Run(es).current
            && var back := lost + [Timer(idle, true, Starts)] + [Connected(true)];
               Run(back).link == Up && Run(back).current == [JoinRequest]
               && Run(back).past == Run(es).past + [Run(es).current]
  {
    var lost := es + [Timer(true, due, attempt)];
    var trying := lost + [Timer(idle, true, Starts)];
    RunThen(es, Timer(true, due, attempt));
    RunThen(lost, Timer(idle, true, Starts));
    assert Run(trying).link == Connecting;
    RunThen(trying, Connected(true));
    assert [] + [JoinRequest] == [JoinRequest];
  }

  /** A connection that is open stays open as long as its peer is heard, the application does not connect
      it anew and no error is reported. */
  lemma HeardPeerIsKept(es: seq<Event>, e: Event)
    requires Run(es).link == Up
    ensures Run(es + [e]).link == Up <==> !(e.Connect? || e.SocketError? || (e.Timer? && e.idle))
  {
    RunThen(es, e);
  }

  /** An unsuccessful attempt leaves the connection to be retried; nothing but a connect or a due tick
      starts one. */
  lemma AttemptsStart(es: seq<Event>, e: Event)
    requires Run(es).link == Down
    ensures Run(es + [e]).link == Connecting <==>
            (e.Connect? && e.attempt.Starts?) || (e.Timer? && e.due && e.attempt.Starts?)
    ensures Run(es + [e]).link != Up
  {
    RunThen(es, e);
  }

  lemma AttemptsEnd(es: seq<Event>, e: Event)
    requires Run(es).link == Connecting
    ensures Run(es + [e]).link == if e.Connected? then (if e.ok then Up else Down) else Connecting
  {
    RunThen(es, e);
  }

  // ---- the object ----

  /** A socket address, in host order. */
  datatype Address = Address(ip: uint32, port: uint16)

  /** The connection object with the TCP client it owns. The ghost fields record what it has sent. */
  class UniLbsConnection {
    const address: Address
    var joined: bool
    var connecting: bool            // connecting_
    var open: bool                  // conn_ is not null
    ghost var replied: bool
    ghost var past: seq<seq<Packet>>
    ghost var current: seq<Packet>

    ghost predicate Valid()
      reads this
    {
      !(connecting && open)
    }

    ghost function Now(): Conn
      reads this
    {
      Conn(if connecting then Connecting else if open then Up else Down, joined, replied, past, current)
    }

    constructor (address: Address)
      ensures Valid() && Now() == START && this.address == address
    {
      this.address := address;
      joined, connecting, open := false, false, false;
      replied, past, current := false, [], [];
    }

    method SendPacket(p: Packet) returns (sent: bool)
      requires Valid()
      modifies this
      ensures Valid() && Now() == Send(old(Now()), p) && (sent <==> Now().link == Up)
      ensures sent <==> old(open) && !old(connecting)
      ensures past == old(past) && current == if sent then old(current) + [p] else old(current)
      ensures joined == old(joined) && open == old(open) && connecting == old(connecting)
    {
      sent := !connecting && open;
      if sent {
        current := current + [p];
      }
    }

    /** TcpClient::Connect; an attempt that is refused at once is reported before the call returns. */
    method Connect(attempt: Attempt) returns (ok: bool)
      requires Valid()
      modifies this
      ensures Valid() && Now() == Step(old(Now()), Event.Connect(attempt))
      ensures ok <==> old(connecting) || attempt.Starts?
      ensures past == old(past) && current == old(current)
      ensures old(connecting) ==> connecting && !open && joined == old(joined)
      ensures !old(connecting) ==> !open && (connecting <==> attempt.Starts?)
      ensures !old(connecting) ==> joined == (old(joined) && !attempt.Refused?)
    {
      if connecting {
        return true;
      }
      open := false;
      if attempt.NoSocket? {
        return false;
      }
      connecting := true;
      if attempt.Refused? {
        OnConnect(false);
        return false;
      }
      return true;
    }

    /** The attempt ends: TcpClient::OnConnect and the OnConnect it calls. */
    method OnConnect(ok: bool)
      requires Valid() && connecting
      modifies this
      ensures Valid() && Now() == Step(old(Now()), Connected(ok))
      ensures !connecting && open == ok && joined == (old(joined) && ok)
      ensures if ok then past == old(past) + [old(current)] && current == [JoinRequest]
              else past == old(past) && current == old(current)
    {
      connecting := false;
      open := ok;
      if !ok {
        joined := false;
        return;
      }
      past, current, replied := past + [current], [], false;
      var _ := SendPacket(JoinRequest);
    }

    /** TcpClient::OnError and the OnSocketError it calls. */
    method OnSocketError()
      requires Valid() && open
      modifies this
      ensures Valid() && Now() == Step(old(Now()), SocketError)
      ensures !open && !connecting && !joined && past == old(past) && current == old(current)
    {
      open := false;
      joined := false;
    }

    /** TcpClient::OnTimer: closes an idle connection without a callback, pings a live one, retries a
        lost one when that is due. */
    method OnTimer(idle: bool, due: bool, attempt: Attempt)
      requires Valid()
      modifies this
      ensures Valid() && Now() == Step(old(Now()), Timer(idle, due, attempt))
      ensures past == old(past)
      ensures old(open) && !old(connecting) && idle ==>
                !open && !connecting && joined == old(joined) && current == old(current)
      ensures old(open) && !old(connecting) && !idle ==>
                && open && !connecting && joined == old(joined)
                && current == if joined then old(current) + [Ping] else old(current)
      ensures !old(open) || old(connecting) ==> current == old(current) && !open
      ensures old(connecting) || (!old(open) && !due) ==> connecting == old(connecting) && joined == old(joined)
      ensures !old(open) && !old(connecting) && due ==>
                (connecting <==> attempt.Starts?) && joined == (old(joined) && !attempt.Refused?)
    {
      if !connecting && open && idle {
        open := false;
        return;
      }
      if !connecting && open {
        TimeToPing();
      } else if !connecting && due {
        var _ := Connect(attempt);
      }
    }

    method TimeToPing()
      requires Valid()
      modifies this
      ensures Valid() && Now() == if old(joined) then Send(old(Now()), Ping) else old(Now())
      ensures past == old(past) && joined == old(joined) && open == old(open) && connecting == old(connecting)
      ensures current == if joined && open && !connecting then old(current) + [Ping] else old(current)
    {
      if !joined { return; }
      var _ := SendPacket(Ping);
    }

    /** A join reply arrives on the open connection; `listed` is what the application fills in. */
    method OnJoinReplied(ok: bool, listed: seq<Channel>)
      requires Valid() && open
      modifies this
      ensures Valid() && Now() == Step(old(Now()), JoinReply(ok, listed))
      ensures open && !connecting && past == old(past)
      ensures if ok then joined && current == old(current) + [FullChannelList(listed)]
              else joined == old(joined) && current == old(current)
    {
      if ok {
        joined := true;
        replied := true;
        var _ := SendPacket(FullChannelList(listed));
      }
    }

    method DoChannelCreate(c: Channel)
      requires Valid()
      modifies this
      ensures Valid() && Now() == Step(old(Now()), ChannelCreate(c))
      ensures past == old(past) && joined == old(joined) && open == old(open) && connecting == old(connecting)
      ensures current == if joined && open && !connecting then old(current) + [Added(c)] else old(current)
    {
      if !joined { return; }
      var _ := SendPacket(Added(c));
    }

    method DoChannelDestroy(c: Channel)
      requires Valid()
      modifies this
      ensures Valid() && Now() == Step(old(Now()), ChannelDestroy(c))
      ensures past == old(past) && joined == old(joined) && open == old(open) && connecting == old(connecting)
      ensures current == if joined && open && !connecting then old(current) + [Removed(c)] else old(current)
    {
      if !joined { return; }
      var _ := SendPacket(Removed(c));
    }
  }
}

// TcpConnection: packets over a byte stream that arrives in arbitrary pieces.

module Stream {
  import opened Bytes
  import opened VarInt
  import opened Values
  import opened Wire
  import opened Flat
  import opened Packing
  import opened Packers
  import opened Unpackers

  /** A packet is never shorter than its header and the two fields every packet starts with. */
  const MIN_PACKET: nat := 6

  // ---- cutting a byte string into packets ----

  datatype Progress = Progress(packets: seq<seq<uint8>>, rest: seq<uint8>, broken: bool)

  /** The complete packets at the front of s, what is left, and whether a length that no packet
      can have was met. */
  function Deframe(s: seq<uint8>): Progress {
    if |s| < MIN_PACKET then Progress([], s, false)
    else
      var len := DecodeVar(s, 0).value.0;
      if len < MIN_PACKET then Progress([], s, true)
      else if |s| < len then Progress([], s, false)
      else
        var r := Deframe(s[len..]);
        Progress([s[..len]] + r.packets, r.rest, r.broken)
  }

  /** One more piece of the stream. */
  function Feed(st: Progress, piece: seq<uint8>): Progress {
    var r := Deframe(st.rest + piece);
    Progress(st.packets + r.packets, r.rest, r.broken)
  }

  function FeedAll(st: Progress, pieces: seq<seq<uint8>>): Progress {
    if pieces == [] then st else Feed(FeedAll(st, pieces[..|pieces| - 1]), pieces[|pieces| - 1])
  }

  /** The length that stands at the front. */
  function DeclaredLength(s: seq<uint8>): nat
    requires |s| >= 3
  {
    DecodeVar(s, 0).value.0
  }

  /** What is cut out, in words of the stream: packets and rest are the stream in order, each packet is as
      long as it declares and that is six bytes or more; it is over when fewer than six bytes are left,
      or fewer than the next packet declares, or when the next length is below six, which is the error. */
  lemma {:induction false} DeframeMeans(s: seq<uint8>)
    ensures var r := Deframe(s);
            && Flatten(r.packets) + r.rest == s
            && (forall f | f in r.packets :: |f| >= 6 && DeclaredLength(f) == |f|)
            && (r.broken <==> |r.rest| >= 6 && DeclaredLength(r.rest) < 6)
            && (r.broken || |r.rest| < 6 || |r.rest| < DeclaredLength(r.rest))
  {
    hide DecodeVar, Flatten, Deframe;
    PacketsAreReadable(s);
    DeframeCases(s);
    if |s| < MIN_PACKET || DeclaredLength(s) < MIN_PACKET || |s| < DeclaredLength(s) {
      FlattenNone();
      assert [] + s == s;
    } else {
      var len := DeclaredLength(s);
      var rest := s[len..];
      DeframeMeans(rest);
      FlattenCons(s[..len], Deframe(rest).packets);
      assert s == s[..len] + rest;
    }
  }

  /** Looking at the first bytes of a stream again when more has arrived changes nothing. */
  lemma {:induction false} DeframeExtends(a: seq<uint8>, b: seq<uint8>)
    ensures var r := Deframe(a);
            var r2 := Deframe(r.rest + b);
            Deframe(a + b) == if r.broken then Progress(r.packets, r.rest + b, true)
                              else Progress(r.packets + r2.packets, r2.rest, r2.broken)
  {
    hide DecodeVar;
    if |a| >= MIN_PACKET {
      DecodeVarPrefix(a, b);
      var len := DecodeVar(a, 0).value.0;
      if MIN_PACKET <= len <= |a| {
        assert (a + b)[..len] == a[..len] && (a + b)[len..] == a[len..] + b;
        DeframeExtends(a[len..], b);
        var t, t2 := Deframe(a[len..]), Deframe(Deframe(a[len..]).rest + b);
        assert [a[..len]] + (t.packets + t2.packets) == ([a[..len]] + t.packets) + t2.packets;
      }
    }
  }

  lemma DecodeVarPrefix(a: seq<uint8>, b: seq<uint8>)
    requires |a| >= 3
    ensures DecodeVar(a + b, 0) == DecodeVar(a, 0) && DecodeVar(a, 0).Some?
  {
  }

  /** An impossible length at the front stays there. */
  lemma {:induction false} BrokenStaysBroken(s: seq<uint8>)
    ensures Deframe(s).broken ==> Deframe(Deframe(s).rest) == Progress([], Deframe(s).rest, true)
  {
    hide DecodeVar;
    if |s| >= MIN_PACKET {
      var len := DeclaredLength(s);
      if MIN_PACKET <= len <= |s| {
        BrokenStaysBroken(s[len..]);
      }
    }
  }

  /** So feeding the rest and what arrives next gives what the whole would have given. */
  lemma DeframeResumes(a: seq<uint8>, b: seq<uint8>)
    ensures var r := Deframe(a);
            var r2 := Deframe(r.rest + b);
            Deframe(a + b) == Progress(r.packets + r2.packets, r2.rest, r2.broken)
  {
    hide Deframe;
    DeframeExtends(a, b);
    if Deframe(a).broken {
      BrokenStaysBroken(a);
      DeframeExtends(Deframe(a).rest, b);
    }
  }

  /** Chunk independence: however the network cuts the stream, the packets that come out, the unread
      bytes and whether an impossible length was met are those of the whole stream. */
  lemma {:induction false} PiecesDoNotMatter(pieces: seq<seq<uint8>>)
    ensures FeedAll(Progress([], [], false), pieces) == Deframe(Flatten(pieces))
  {
    hide Deframe;
    if pieces == [] {
      NothingYet();
    } else {
      var front, last := pieces[..|pieces| - 1], pieces[|pieces| - 1];
      PiecesDoNotMatter(front);
      DeframeResumes(Flatten(front), last);
    }
  }

  /** At any moment the packets delivered so far are the first ones of those delivered later. */
  lemma DeliveryIsMonotone(a: seq<uint8>, b: seq<uint8>)
    ensures Deframe(a).packets <= Deframe(a + b).packets
  {
    DeframeExtends(a, b);
  }

  // ---- what a sender writes comes out ----

  function Frames(bodies: seq<seq<uint8>>): (fs: seq<seq<uint8>>)
    ensures |fs| == |bodies|
  {
    seq(|bodies|, i requires 0 <= i < |bodies| => Frame(bodies[i]))
  }

  predicate Sendables(bodies: seq<seq<uint8>>) {
    forall i | 0 <= i < |bodies| :: 4 <= |bodies[i]| && RESERVED + |bodies[i]| < MAX_PACKET
  }

  lemma {:induction false} FramesComeOut(bodies: seq<seq<uint8>>)
    requires Sendables(bodies)
    ensures Deframe(Flatten(Frames(bodies))) == Progress(Frames(bodies), [], false)
  {
    hide Deframe, Frame;
    if bodies == [] {
      NothingYet();
    } else {
      var front, last := bodies[..|bodies| - 1], bodies[|bodies| - 1];
      FramesComeOut(front);
      assert Frames(bodies)[..|bodies| - 1] == Frames(front);
      DeframeExtends(Flatten(Frames(front)), Frame(last));
      assert [] + Frame(last) == Frame(last);
      OneFrame(last);
      assert Frames(bodies) == Frames(front) + [Frame(last)];
    }
  }

  lemma NothingYet()
    ensures Deframe([]) == Progress([], [], false)
  {
  }

  lemma OneFrame(body: seq<uint8>)
    requires 4 <= |body| && RESERVED + |body| < MAX_PACKET
    ensures Deframe(Frame(body)) == Progress([Frame(body)], [], false)
  {
    var s := Frame(body);
    FrameAnnouncesItself(s, 0, |s|, body);
    PackedLengthSolves(|body|);
    assert s[..|s|] == s && s[|s|..] == [];
  }

  // ---- messages ----

  /** A packet class: its two header fields and the members of its own, if it has any. */
  datatype Message = Message(serverType: uint16, uri: uint16, members: seq<Value>)

  /** Packet::Marshall and the marshalling of a derived class, as one record. */
  function Fields(m: Message): Value {
    VSeq([VInt(m.serverType), VInt(m.uri)] + m.members)
  }

  function TypeOf(ts: seq<Type>): Type {
    TRec([UINT16, UINT16] + ts)
  }

  function BodyOf(m: Message, ts: seq<Type>): seq<uint8> {
    Encode(Fields(m), TypeOf(ts))
  }

  lemma BodyShape(m: Message, ts: seq<Type>)
    requires |m.members| == |ts|
    ensures BodyOf(m, ts) == ToLE(m.serverType, 2) + ToLE(m.uri, 2) + EncodeFields(m.members, ts)
    ensures FieldsOk(ts) ==> TypeOk(TypeOf(ts))
    ensures FieldsTyped(m.members, ts) ==> HasType(Fields(m), TypeOf(ts))
  {
    hide EncodeFields, FieldsTyped, FieldsOk;
    Pow256Values();
    var a, b := VInt(m.serverType), VInt(m.uri);
    Fields2(a, b, UINT16, UINT16);
    FieldsConcat([a, b], m.members, [UINT16, UINT16], ts);
  }

  /** The peek at the two header fields before the packet is rewound and unmarshalled. */
  function Peek(packet: seq<uint8>): Option<(nat, nat)>
    requires DecodeVar(packet, 0).Some?
  {
    var p := DecodeVar(packet, 0).value.1;
    if p + 4 <= |packet| then Some((FromLE(packet[p..p + 2]), FromLE(packet[p + 2..p + 4]))) else None
  }

  /** The peek stays inside a packet of the right length, except for a six-byte packet whose length
      is written in three bytes where two would do. */
  lemma PeekInside(packet: seq<uint8>)
    requires |packet| >= MIN_PACKET && DecodeVar(packet, 0).value.0 == |packet|
    ensures Peek(packet).None? <==> |packet| == 6 && DecodeVar(packet, 0).value.1 == 3
  {
  }

  /** The smallest packet whose peek reads outside it: six bytes of which three are the length. */
  lemma PeekLeavesPacket()
    ensures var s: seq<uint8> := [6, 0x80, 0, 0, 0, 0];
            && DecodeVar(s, 0) == Some((6, 3)) && Deframe(s) == Progress([s], [], false) && Peek(s) == None
  {
    var s: seq<uint8> := [6, 0x80, 0, 0, 0, 0];
    assert DecodeVar(s, 0) == Some((6, 3));
    assert s[..6] == s && s[6..] == [];
    assert Deframe([]) == Progress([], [], false);
  }

  predicate Fits(m: Message, ts: seq<Type>) {
    FieldsOk(ts) && FieldsTyped(m.members, ts) && RESERVED + |BodyOf(m, ts)| < MAX_PACKET
  }

  /** The receiver of a framed message peeks its two fields, rewinds, unmarshalls all of it, and ends
      at the end of the packet. */
  lemma FrameReadsBack(m: Message, ts: seq<Type>)
    requires Fits(m, ts)
    ensures var f := Frame(BodyOf(m, ts));
            && 4 <= |BodyOf(m, ts)| && DecodeVar(f, 0).Some? && DecodeVar(f, 0).value.0 == |f|
            && Peek(f) == Some((m.serverType, m.uri))
            && Decode(f, DecodeVar(f, 0).value.1, TypeOf(ts)) == Some((Fields(m), |f|))
  {
    hide EncodeVar, DecodeVar, Decode, Encode, EncodeFields, ToLE, FromLE, HasType, TypeOk, Countable;
    var body := BodyOf(m, ts);
    var f := Frame(body);
    BodyShape(m, ts);
    FrameAnnouncesItself(f, 0, |f|, body);
    PackedLengthSolves(|body|);
    assert f[0..|f|] == f;
    var p := VarLen(PackedLength(|body|));
    SmallIsCountable(Fields(m), TypeOf(ts));
    RoundTrip(f, p, |f|, Fields(m), TypeOf(ts));
    PeekBytes(f, p, m.serverType, m.uri, EncodeFields(m.members, ts));
  }

  /** The smallest packet there is, one without members of its own, is included: it has six bytes. */
  lemma BarePacket(serverType: uint16, uri: uint16)
    ensures var m := Message(serverType, uri, []);
            && Fits(m, []) && Frame(BodyOf(m, [])) == ToLE(6, 2) + ToLE(serverType, 2) + ToLE(uri, 2)
            && |Frame(BodyOf(m, []))| == MIN_PACKET
  {
    var m := Message(serverType, uri, []);
    BodyShape(m, []);
    assert |BodyOf(m, [])| == 4;
    VarCode(6);
  }

  lemma PeekBytes(f: seq<uint8>, p: nat, a: uint16, b: uint16, rest: seq<uint8>)
    requires Spans(f, p, |f|, ToLE(a, 2) + ToLE(b, 2) + rest)
    ensures p + 4 <= |f| && FromLE(f[p..p + 2]) == a && FromLE(f[p + 2..p + 4]) == b
  {
    Pow256Values();
    FromToLE(a, 2);
    FromToLE(b, 2);
    SpansConcat(f, p, p + 4, |f|, ToLE(a, 2) + ToLE(b, 2), rest);
    SpansConcat(f, p, p + 2, p + 4, ToLE(a, 2), ToLE(b, 2));
  }

  function Bodies(ms: seq<Message>, ts: seq<seq<Type>>): (bs: seq<seq<uint8>>)
    requires |ms| == |ts|
    ensures |bs| == |ms|
  {
    seq(|ms|, i requires 0 <= i < |ms| => BodyOf(ms[i], ts[i]))
  }

  /** End to end: whatever messages are sent and however the stream of their packets is cut up on
      its way, the receiver gets exactly these packets in order, sees the right header fields in
      each, and unmarshalls each to the message that was sent, up to its last byte. */
  lemma EndToEnd(ms: seq<Message>, ts: seq<seq<Type>>, pieces: seq<seq<uint8>>)
    requires |ms| == |ts| && forall i | 0 <= i < |ms| :: Fits(ms[i], ts[i])
    requires Flatten(pieces) == Flatten(Frames(Bodies(ms, ts)))
    ensures var fed := FeedAll(Progress([], [], false), pieces);
            && !fed.broken && fed.rest == [] && |fed.packets| == |ms|
            && forall i | 0 <= i < |ms| ::
                 var f := fed.packets[i];
                 && DecodeVar(f, 0).Some? && Peek(f) == Some((ms[i].serverType, ms[i].uri))
                 && Decode(f, DecodeVar(f, 0).value.1, TypeOf(ts[i])) == Some((Fields(ms[i]), |f|))
  {
    hide Deframe, FeedAll, Frame, Decode, DecodeVar, Fits, BodyOf, Peek;
    var bodies := Bodies(ms, ts);
    forall i | 0 <= i < |ms|
      ensures 4 <= |bodies[i]| && RESERVED + |bodies[i]| < MAX_PACKET
      ensures DecodeVar(Frame(bodies[i]), 0).Some?
      ensures Peek(Frame(bodies[i])) == Some((ms[i].serverType, ms[i].uri))
      ensures Decode(Frame(bodies[i]), DecodeVar(Frame(bodies[i]), 0).value.1, TypeOf(ts[i])) ==
              Some((Fields(ms[i]), |Frame(bodies[i])|))
    {
      FitsBelow(ms[i], ts[i]);
      FrameReadsBack(ms[i], ts[i]);
    }
    FramesComeOut(bodies);
    PiecesDoNotMatter(pieces);
  }

  lemma FitsBelow(m: Message, ts: seq<Type>)
    requires Fits(m, ts)
    ensures RESERVED + |BodyOf(m, ts)| < MAX_PACKET
  {
  }

  // ---- the two ends of a connection ----

  /** TcpConnection::SendPacket: packs the message and hands the packet to the socket. */
  method SendPacket(m: Message, ts: seq<Type>) returns (written: seq<uint8>)
    requires Fits(m, ts)
    ensures written == Frame(BodyOf(m, ts))
  {
    hide Encode, EncodeFields, FieldsOk, EncodeVar;
    BodyShape(m, ts);
    var p := new Packer();
    p.PushValue(Fields(m), TypeOf(ts));
    ghost var body := p.Written();
    assert body == BodyOf(m, ts);
    p.Pack();
    written := p.Data(body);
  }

  /** What the callback of a connection is handed: the fields the peek read, and the unpacker, that is
      its packet and its cursor. */
  datatype Delivery = Delivery(header: Option<(nat, nat)>, packet: seq<uint8>, cursor: nat)

  /** The delivery of a packet: the cursor stands behind the length, where unmarshalling starts. */
  function DeliveryOf(packet: seq<uint8>): Delivery
    requires DecodeVar(packet, 0).Some?
  {
    Delivery(Peek(packet), packet, DecodeVar(packet, 0).value.1)
  }

  function Deliveries(packets: seq<seq<uint8>>): (ds: seq<Delivery>)
    requires forall f | f in packets :: DecodeVar(f, 0).Some?
    ensures |ds| == |packets|
  {
    seq(|packets|, i requires 0 <= i < |packets| => DeliveryOf(packets[i]))
  }

  lemma {:induction false} PacketsAreReadable(s: seq<uint8>)
    ensures forall f | f in Deframe(s).packets ::
      |f| >= MIN_PACKET && DecodeVar(f, 0).Some? && DecodeVar(f, 0).value.0 == |f|
  {
    hide DecodeVar;
    if |s| >= MIN_PACKET {
      var len := DeclaredLength(s);
      if MIN_PACKET <= len <= |s| {
        PacketsAreReadable(s[len..]);
        assert s == s[..len] + s[len..];
        DecodeVarPrefix(s[..len], s[len..]);
      }
    }
  }

  lemma DeliveriesPush(packets: seq<seq<uint8>>, f: seq<uint8>)
    requires (forall g | g in packets :: DecodeVar(g, 0).Some?) && DecodeVar(f, 0).Some?
    ensures forall g | g in packets + [f] :: DecodeVar(g, 0).Some?
    ensures Deliveries(packets + [f]) == Deliveries(packets) + [DeliveryOf(f)]
  {
  }

  /** One look at the input. */
  lemma DeframeCases(s: seq<uint8>)
    ensures |s| < MIN_PACKET ==> Deframe(s) == Progress([], s, false)
    ensures |s| >= MIN_PACKET ==> DecodeVar(s, 0).Some?
    ensures |s| >= MIN_PACKET ==>
      (var len := DecodeVar(s, 0).value.0;
       && (len < MIN_PACKET ==> Deframe(s) == Progress([], s, true))
       && (|s| < len ==> Deframe(s) == Progress([], s, false))
       && (MIN_PACKET <= len <= |s| ==>
            (var r := Deframe(s[len..]);
             && DecodeVar(s[..len], 0).Some?
             && Deframe(s) == Progress([s[..len]] + r.packets, r.rest, r.broken))))
  {
    if |s| >= MIN_PACKET {
      var len := DecodeVar(s, 0).value.0;
      if MIN_PACKET <= len <= |s| {
        assert s == s[..len] + s[len..];
        DecodeVarPrefix(s[..len], s[len..]);
      }
    }
  }

  class TcpConnection {
    var input: seq<uint8>           // the read buffer of the socket
    var delivered: seq<Delivery>    // the calls of the registered callback, in order
    var errors: nat                 // how often the callback's OnError was called
    var closed: bool
    const closesOnError: bool       // whether that callback closes the connection, as TcpClient does

    constructor (closesOnError: bool)
      ensures input == [] && delivered == [] && errors == 0 && !closed && this.closesOnError == closesOnError
    {
      input, delivered, errors, closed := [], [], 0, false;
      this.closesOnError := closesOnError;
    }

    /** What has happened once the bytes s were there: the complete packets are delivered, the rest
        stays, and an impossible length is reported once, which closes the connection if the callback
        does so. */
    twostate predicate Processed(s: seq<uint8>)
      reads this
    {
      var r := Deframe(s);
      && (forall f | f in r.packets :: DecodeVar(f, 0).Some?)
      && delivered == old(delivered) + Deliveries(r.packets)
      && input == r.rest && closed == (r.broken && closesOnError)
      && errors == old(errors) + if r.broken then 1 else 0
    }

    /** Bytes arrive on an open connection. */
    method OnData(piece: seq<uint8>)
      requires !closed
      modifies this
      ensures Processed(old(input) + piece)
    {
      input := input + piece;
      OnDataReady();
    }

    method OnDataReady()
      requires !closed
      modifies this
      ensures Processed(old(input))
    {
      hide DecodeVar, Deframe, DeliveryOf;
      ghost var all, done := input, [];
      PacketsAreReadable(all);
      assert [] + Deframe(all).packets == Deframe(all).packets;
      while !closed
        invariant !closed && errors == old(errors)
        invariant forall f | f in done :: DecodeVar(f, 0).Some?
        invariant delivered == old(delivered) + Deliveries(done)
        invariant Deframe(all) == Progress(done + Deframe(input).packets, Deframe(input).rest, Deframe(input).broken)
        decreases |input|
      {
        DeframeCases(input);
        assert done + [] == done;
        var length := |input|;
        if length < MIN_PACKET {
          break;
        }
        var packetLength := ReadLength();
        if packetLength < MIN_PACKET {
          errors := errors + 1;
          closed := closesOnError;
          break;
        }
        if length < packetLength {
          break;
        }
        var buffer := input[..packetLength];
        ghost var later := Deframe(input[packetLength..]).packets;
        assert (done + [buffer]) + later == done + ([buffer] + later);
        input := input[packetLength..];
        Deliver(buffer);
        DeliveriesPush(done, buffer);
        done := done + [buffer];
      }
    }

    /** The two- or three-byte length at the front of the input, as the connection reads it. */
    method ReadLength() returns (n: nat)
      requires |input| >= MIN_PACKET
      ensures Some(n) == First(DecodeVar(input, 0))
    {
      var lower := Word(input[0], input[1]);
      if lower >= 0x8000 {
        var value := Quad(lower, input[2], input[3]) % 0x100_0000;
        n := lower % 0x8000 + value / 0x1_0000 * 0x8000;
        ThirdByte(lower, input[2], input[3]);
      } else {
        n := lower;
      }
    }

    /** Peeks at the header fields through an Unpacker, rewinds it and calls back. Where the peek
        would leave the packet the source reads whatever lies behind it; the model says None. */
    method Deliver(packet: seq<uint8>)
      requires DecodeVar(packet, 0).Some?
      modifies this`delivered
      ensures delivered == old(delivered) + [DeliveryOf(packet)]
    {
      var p := new Unpacker(packet);
      var header: Option<(nat, nat)> := None;
      if p.position + 4 <= |packet| {
        var serverType := p.PopFixed(2, false);
        var uri := p.PopFixed(2, false);
        header := Some((serverType, uri));
      }
      p.Rewind();
      delivered := delivered + [Delivery(header, packet, p.position)];
    }
  }

  /** The uint32_t whose low half is given, in memory order. */
  function Quad(low: nat, third: nat, fourth: nat): nat {
    low + 0x1_0000 * third + 0x100_0000 * fourth
  }

  lemma ThirdByte(low: nat, third: nat, fourth: nat)
    requires low < 0x1_0000 && third < 0x100
    ensures Quad(low, third, fourth) % 0x100_0000 / 0x1_0000 == third
  {
    var v := low + 0x1_0000 * third;
    LowBytes(v, fourth);
    HighByte(low, third);
  }

  lemma LowBytes(v: nat, fourth: nat)
    requires v < 0x100_0000
    ensures (v + 0x100_0000 * fourth) % 0x100_0000 == v
  {
    var n := v + 0x100_0000 * fourth;
    assert n / 0x100_0000 == fourth;
  }

  lemma HighByte(low: nat, third: nat)
    requires low < 0x1_0000
    ensures (low + 0x1_0000 * third) / 0x1_0000 == third
  {
  }

  function First(r: Option<(nat, nat)>): Option<nat> {
    if r.None? then None else Some(r.value.0)
  }
}

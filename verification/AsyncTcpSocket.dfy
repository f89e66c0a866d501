/** asynctcpsocket.cc: packets over a byte stream, each after its length in two bytes. */
module AsyncTcpSockets {
  import opened Octets

  const PACKET_LEN_SIZE: nat := 2
  const BUF_SIZE: nat := 64 * 1024 + PACKET_LEN_SIZE
  const MINIMUM_RECV_SIZE: nat := 128

  // ---------- frames ----------

  /** HostToNetwork16: the two bytes of a number, the high one first. */
  function HostToNetwork16(n: nat): (bytes: seq<Byte>)
    requires n < 0x1_0000
    ensures |bytes| == PACKET_LEN_SIZE && 256 * bytes[0] as int + bytes[1] as int == n
  {
    [n / 256, n % 256]
  }

  /** The length is cut to 16 bits and sent in network order. */
  function Frame(packet: seq<Byte>): (frame: seq<Byte>)
    ensures |frame| == PACKET_LEN_SIZE + |packet|
  {
    HostToNetwork16(|packet| % 0x1_0000) + packet
  }

  function Frames(packets: seq<seq<Byte>>): seq<Byte> {
    if |packets| == 0 then [] else Frame(packets[0]) + Frames(packets[1..])
  }

  function GetBE16(data: seq<Byte>): nat
    requires |data| >= 2
  {
    (data[0] as int) * 256 + data[1] as int
  }

  predicate WholeFrame(data: seq<Byte>) {
    |data| >= PACKET_LEN_SIZE && |data| >= PACKET_LEN_SIZE + GetBE16(data)
  }

  /** The packets at the start of the data whose frames are complete. */
  function PacketsIn(data: seq<Byte>): seq<seq<Byte>> {
    if !WholeFrame(data) then []
    else
      var end := PACKET_LEN_SIZE + GetBE16(data);
      [data[PACKET_LEN_SIZE..end]] + PacketsIn(data[end..])
  }

  /** The bytes that are left after them. */
  function RestOf(data: seq<Byte>): seq<Byte> {
    if !WholeFrame(data) then data else RestOf(data[PACKET_LEN_SIZE + GetBE16(data)..])
  }

  predicate Small(packets: seq<seq<Byte>>) {
    forall i | 0 <= i < |packets| :: |packets[i]| <= 0xFFFF
  }

  lemma FirstFrame(packet: seq<Byte>, more: seq<Byte>)
    requires |packet| <= 0xFFFF
    ensures var data := Frame(packet) + more;
            && WholeFrame(data)
            && PacketsIn(data) == [packet] + PacketsIn(more) && RestOf(data) == RestOf(more)
  {
    hide HostToNetwork16;
    var data := Frame(packet) + more;
    assert GetBE16(data) == |packet|;
    assert data[PACKET_LEN_SIZE..PACKET_LEN_SIZE + |packet|] == packet;
    assert data[PACKET_LEN_SIZE + |packet|..] == more;
  }

  /** The format in bytes: the lowest 16 bits of the length, high byte first, then the packet. */
  predicate OnWire(packet: seq<Byte>, bytes: seq<Byte>) {
    |bytes| == 2 + |packet| && 256 * bytes[0] as int + bytes[1] as int == |packet| % 65536 && bytes[2..] == packet
  }

  /** A frame is in this format, and nothing else is. */
  lemma FrameOnWire(packet: seq<Byte>)
    ensures OnWire(packet, Frame(packet))
    ensures forall bytes: seq<Byte> :: OnWire(packet, bytes) ==> bytes == Frame(packet)
  {
  }

  lemma NewBytes(before: seq<Byte>, packet: seq<Byte>, sent: nat)
    requires sent <= |Frame(packet)|
    ensures OnWire(packet, (before + Frame(packet)[..sent] + Frame(packet)[sent..])[|before|..])
  {
    hide Frame, OnWire;
    FrameOnWire(packet);
    assert (before + Frame(packet)[..sent] + Frame(packet)[sent..])[|before|..] == Frame(packet);
  }

  lemma FrameParts(packet: seq<Byte>)
    ensures [] + HostToNetwork16(|packet| % 0x1_0000) + packet == Frame(packet)
  {
  }

  /** Two bytes of length, high byte first, and as many bytes after them are a packet, and what follows is next. */
  lemma PacketOnWire(h: Byte, l: Byte, body: seq<Byte>, more: seq<Byte>)
    requires |body| == 256 * h as int + l as int
    ensures PacketsIn([h, l] + body + more) == [body] + PacketsIn(more)
    ensures RestOf([h, l] + body + more) == RestOf(more)
    ensures [h, l] + body == Frame(body)
  {
    hide PacketsIn, RestOf;
    FrameOnWire(body);
    assert OnWire(body, [h, l] + body);
    FirstFrame(body, more);
  }

  /** The first packet in the data, by its bytes. */
  lemma FirstPacket(data: seq<Byte>)
    ensures if |data| >= 2 && |data| >= 2 + 256 * data[0] as int + data[1] as int then
              var end := 2 + 256 * data[0] as int + data[1] as int;
              PacketsIn(data) == [data[2..end]] + PacketsIn(data[end..]) && RestOf(data) == RestOf(data[end..])
            else
              PacketsIn(data) == [] && RestOf(data) == data
  {
    hide GetBE16;
    if |data| >= 2 {
      HighByteFirst(data);
    }
  }

  lemma HighByteFirst(data: seq<Byte>)
    requires |data| >= 2
    ensures GetBE16(data) == 256 * data[0] as int + data[1] as int
  {
  }

  lemma FrameOfPrefix(data: seq<Byte>)
    requires WholeFrame(data)
    ensures var end := PACKET_LEN_SIZE + GetBE16(data);
            Frame(data[PACKET_LEN_SIZE..end]) == data[..end] && |data[PACKET_LEN_SIZE..end]| <= 0xFFFF
  {
  }

  /** A packet survives its way through the stream exactly if its length does not need more than 16 bits. */
  lemma FrameRoundTrip(packet: seq<Byte>)
    ensures PacketsIn(Frame(packet)) == [packet] && RestOf(Frame(packet)) == [] <==> |packet| <= 0xFFFF
  {
    if |packet| <= 0xFFFF {
      FirstFrame(packet, []);
      assert Frame(packet) + [] == Frame(packet);
    } else {
      FramesOfPackets(Frame(packet));
      assert PacketsIn(Frame(packet)) == [packet] ==> !Small(PacketsIn(Frame(packet)));
    }
  }

  lemma {:induction false} FramesAppend(packets: seq<seq<Byte>>, more: seq<seq<Byte>>)
    ensures Frames(packets + more) == Frames(packets) + Frames(more)
  {
    hide Frame;
    if |packets| == 0 {
      assert packets + more == more;
    } else {
      FramesAppend(packets[1..], more);
      Join(Frame(packets[0]), Frames(packets[1..]), Frames(more));
      assert packets + more == [packets[0]] + (packets[1..] + more);
      FramesCons(packets[0], packets[1..] + more);
    }
  }

  /** Another packet, of which the first `sent` bytes of its frame have been sent. */
  lemma OneMoreFrame(packets: seq<seq<Byte>>, packet: seq<Byte>, sent: nat)
    requires sent <= |Frame(packet)|
    ensures Frames(packets + [packet]) == Frames(packets) + Frame(packet)[..sent] + Frame(packet)[sent..]
  {
    hide Frame;
    FramesAppend(packets, [packet]);
    FramesCons(packet, []);
    NoFrames();
    assert [packet] + [] == [packet] && Frame(packet) + [] == Frame(packet);
    assert Frame(packet)[..sent] + Frame(packet)[sent..] == Frame(packet);
    Join(Frames(packets), Frame(packet)[..sent], Frame(packet)[sent..]);
  }

  lemma FramesCons(packet: seq<Byte>, packets: seq<seq<Byte>>)
    ensures Frames([packet] + packets) == Frame(packet) + Frames(packets)
    ensures |packet| <= 0xFFFF && Small(packets) ==> Small([packet] + packets)
  {
    assert ([packet] + packets)[1..] == packets;
  }

  /** Nothing is lost, changed or made up: frames and rest are the data again, and the rest has no whole frame. */
  lemma {:induction false} FramesOfPackets(data: seq<Byte>)
    ensures Frames(PacketsIn(data)) + RestOf(data) == data
    ensures !WholeFrame(RestOf(data)) && Small(PacketsIn(data))
  {
    hide Frame, Frames;
    if WholeFrame(data) {
      FrameOfPrefix(data);
      var end := PACKET_LEN_SIZE + GetBE16(data);
      var tail := data[end..];
      FramesOfPackets(tail);
      FramesCons(data[PACKET_LEN_SIZE..end], PacketsIn(tail));
      Join(data[..end], Frames(PacketsIn(tail)), RestOf(tail));
    } else {
      assert Frames([]) == [] by {
        NoFrames();
      }
    }
  }

  lemma NoFrames()
    ensures Frames([]) == [] && Small([])
  {
  }

  lemma Join<T>(a: seq<T>, b: seq<T>, c: seq<T>)
    ensures (a + b) + c == a + (b + c)
  {
  }

  lemma {:induction false} PacketsOfFrames(packets: seq<seq<Byte>>, more: seq<Byte>)
    requires Small(packets)
    ensures PacketsIn(Frames(packets) + more) == packets + PacketsIn(more)
    ensures RestOf(Frames(packets) + more) == RestOf(more)
  {
    hide Frame, PacketsIn, RestOf;
    if |packets| == 0 {
      assert Frames(packets) + more == more;
      assert packets + PacketsIn(more) == PacketsIn(more);
    } else {
      var tail := Frames(packets[1..]) + more;
      FirstFrame(packets[0], tail);
      Join(Frame(packets[0]), Frames(packets[1..]), more);
      PacketsOfFrames(packets[1..], more);
      Join([packets[0]], packets[1..], PacketsIn(more));
      assert packets == [packets[0]] + packets[1..];
    }
  }

  /** How the stream is cut into pieces makes no difference. */
  lemma PacketsInPieces(data: seq<Byte>, more: seq<Byte>)
    ensures PacketsIn(data + more) == PacketsIn(data) + PacketsIn(RestOf(data) + more)
    ensures RestOf(data + more) == RestOf(RestOf(data) + more)
  {
    hide PacketsIn, RestOf, Frames;
    FramesOfPackets(data);
    PacketsOfFrames(PacketsIn(data), RestOf(data) + more);
    Join(Frames(PacketsIn(data)), RestOf(data), more);
  }

  /** What Recv returns if it is offered `available` bytes and means to return `offer` of them, or an error. */
  function Recv(offer: int, freeSize: nat, available: nat): (len: int)
    ensures len <= freeSize && len <= available
  {
    if offer < 0 then -1 else if offer <= freeSize && offer <= available then offer
    else if freeSize <= available then freeSize else available
  }

  /** Every call of Recv hands over all it has, as far as there is room, and there are as many calls as can be needed. */
  predicate Generous(offers: seq<int>, arriving: seq<Byte>) {
    |offers| > |arriving| && forall i | 0 <= i < |offers| :: offers[i] >= BUF_SIZE
  }

  // ---------- the socket ----------

  class AsyncTcpSocket {
    var inbuf: seq<Byte>
    var inCapacity: nat
    var outbuf: seq<Byte>

    ghost var sent: seq<Byte>               // what the stream has been given
    ghost var accepted: seq<seq<Byte>>      // the packets that were not dropped
    ghost var checksHeld: bool              // no RTC_DCHECK of AppendToOutBuffer has failed
    ghost var received: seq<Byte>           // what has been read from the stream
    ghost var signaled: seq<seq<Byte>>      // the packets passed on to SignalReadPacket

    ghost predicate Valid()
      reads this
    {
      && sent + outbuf == Frames(accepted)
      && signaled == PacketsIn(received) && inbuf == RestOf(received) && !WholeFrame(inbuf)
      && |inbuf| < inCapacity && MINIMUM_RECV_SIZE <= inCapacity <= BUF_SIZE
    }

    constructor ()
      ensures Valid() && outbuf == sent == received == inbuf == [] && accepted == signaled == [] && checksHeld
    {
      inbuf, inCapacity, outbuf := [], MINIMUM_RECV_SIZE, [];
      sent, accepted, checksHeld, received, signaled := [], [], true, [], [];
    }

    /** AppendToOutBuffer. */
    method AppendToOutBuffer(data: seq<Byte>)
      modifies `outbuf, `checksHeld
      ensures outbuf == old(outbuf) + data
      ensures checksHeld == (old(checksHeld) && |old(outbuf)| + |data| <= BUF_SIZE)
    {
      checksHeld := checksHeld && |outbuf| + |data| <= BUF_SIZE;
      outbuf := outbuf + data;
    }

    /** FlushOutBuffer, where the stream's Send returns `res`. */
    method FlushOutBuffer(res: int) returns (result: int)
      modifies `outbuf, `sent
      ensures if 0 < res <= |old(outbuf)| then
                result == res && sent == old(sent + outbuf[..res]) && outbuf == old(outbuf[res..])
              else
                outbuf == old(outbuf) && sent == old(sent) && result == (if res <= 0 then res else -1)
    {
      if res <= 0 {
        return res;
      }
      if res > |outbuf| {
        return -1;
      }
      sent := sent + outbuf[..res];
      outbuf := outbuf[res..];
      return res;
    }

    /** Whether a packet gets into the stream: it is dropped if the stream is behind, or takes nothing of it. */
    predicate Accepts(packet: seq<Byte>, res: int)
      reads this
    {
      |packet| <= BUF_SIZE && outbuf == [] && 0 < res <= PACKET_LEN_SIZE + |packet|
    }

    /** Send. */
    method Send(packet: seq<Byte>, res: int) returns (result: int)
      requires Valid()
      modifies `outbuf, `sent, `accepted, `checksHeld
      ensures Valid()
      ensures accepted == old(accepted) + (if old(Accepts(packet, res)) then [packet] else [])
      ensures old(Accepts(packet, res)) ==>
                sent == old(sent) + Frame(packet)[..res] && outbuf == Frame(packet)[res..] && result == |packet|
      ensures !old(Accepts(packet, res)) ==> sent == old(sent) && outbuf == old(outbuf)
      ensures !old(Accepts(packet, res)) ==>
                result == if |packet| > BUF_SIZE then -1 else if old(outbuf) != [] then |packet|
                          else if res <= 0 then res else -1
      ensures checksHeld <==> old(checksHeld) && (|packet| <= 0x1_0000 || |packet| > BUF_SIZE || old(outbuf) != [])
      ensures old(outbuf) == [] && |packet| <= 65538 && 0 < res <= 2 + |packet| ==>
                && accepted == old(accepted) + [packet] && |sent| == |old(sent)| + res
                && OnWire(packet, (sent + outbuf)[|old(sent)|..])
    {
      hide HostToNetwork16, Frame, Frames, PacketsIn, RestOf, WholeFrame, OnWire;
      if |packet| > BUF_SIZE {
        return -1;
      }
      if outbuf != [] {
        return |packet|;
      }
      AppendToOutBuffer(HostToNetwork16(|packet| % 0x1_0000));
      AppendToOutBuffer(packet);
      FrameParts(packet);
      result := FlushOutBuffer(res);
      if result <= 0 {
        outbuf := [];
        return;
      }
      OneMoreFrame(accepted, packet, res);
      NewBytes(old(sent), packet, res);
      accepted := accepted + [packet];
      return |packet|;
    }

    /** OnWriteEvent; the result says whether SignalReadyToSend is called. */
    method OnWriteEvent(res: int) returns (ready: bool)
      requires Valid()
      modifies `outbuf, `sent
      ensures Valid() && old(sent) <= sent && sent + outbuf == old(sent + outbuf)
      ensures ready <==> outbuf == []
      ensures 0 < res <= |old(outbuf)| ==> outbuf == old(outbuf[res..])
    {
      if |outbuf| > 0 {
        var _ := FlushOutBuffer(res);
      }
      ready := |outbuf| == 0;
    }

    /** ProcessInput: the packets it signals, and what it leaves in the buffer. */
    method ProcessInput(data: seq<Byte>) returns (packets: seq<seq<Byte>>, rest: seq<Byte>)
      ensures packets == PacketsIn(data) && rest == RestOf(data)
      ensures if |data| >= 2 && |data| >= 2 + 256 * data[0] as int + data[1] as int then
                |packets| > 0 && packets[0] == data[2..2 + 256 * data[0] as int + data[1] as int]
              else
                packets == [] && rest == data
    {
      hide PacketsIn, RestOf, WholeFrame;
      FirstPacket(data);
      packets, rest := [], data;
      while true
        invariant PacketsIn(data) == packets + PacketsIn(rest) && RestOf(data) == RestOf(rest)
        decreases |rest|
      {
        FirstPacket(rest);
        if |rest| < PACKET_LEN_SIZE {
          return;
        }
        var length := GetBE16(rest);
        if |rest| < PACKET_LEN_SIZE + length {
          return;
        }
        packets := packets + [rest[PACKET_LEN_SIZE..PACKET_LEN_SIZE + length]];
        rest := rest[PACKET_LEN_SIZE + length..];
      }
    }

    /** One call of Recv, after the buffer has grown if it is short of room; a negative result is an error. */
    method ReceiveOnce(arriving: seq<Byte>, taken: nat, offer: int) returns (len: int, more: bool)
      requires taken <= |arriving| && |inbuf| <= inCapacity && MINIMUM_RECV_SIZE <= inCapacity <= BUF_SIZE
      modifies `inbuf, `inCapacity
      ensures taken + len <= |arriving| && |inbuf| <= inCapacity && MINIMUM_RECV_SIZE <= inCapacity <= BUF_SIZE
      ensures len < 0 ==> inbuf == old(inbuf) && !more
      ensures len >= 0 ==> inbuf == old(inbuf) + arriving[taken..taken + len]
      ensures len < 0 <==> offer < 0
      ensures offer > 0 && taken < |arriving| && old(|inbuf| < inCapacity) ==> len > 0
      ensures inCapacity == if old(inCapacity - |inbuf|) >= 128 || old(inCapacity) == 65538 then old(inCapacity)
                            else if 2 * old(inCapacity) <= 65538 then 2 * old(inCapacity) else 65538
      ensures more <==> len > 0 && |inbuf| == inCapacity
      ensures more || |inbuf| < inCapacity || |inbuf| == inCapacity == BUF_SIZE
      ensures offer >= BUF_SIZE && !more ==> taken + len == |arriving| || |inbuf| == BUF_SIZE
    {
      hide Frames, PacketsIn, WholeFrame;
      var freeSize := inCapacity - |inbuf|;
      if freeSize < MINIMUM_RECV_SIZE && inCapacity < BUF_SIZE {
        inCapacity := if BUF_SIZE < inCapacity * 2 then BUF_SIZE else inCapacity * 2;
        freeSize := inCapacity - |inbuf|;
      }
      len := Recv(offer, freeSize, |arriving| - taken);
      more := false;
      if len < 0 {
        return;
      }
      inbuf := inbuf + arriving[taken..taken + len];
      more := !(len == 0 || len < freeSize);
    }

    /**
     * The first part of OnReadEvent: what arrives is appended to the buffer, which grows while it is short of room. The
     * i-th call of Recv means to return offers[i] bytes; calls after those fail.
     */
    method Receive(arriving: seq<Byte>, offers: seq<int>) returns (taken: nat)
      requires |inbuf| < inCapacity && MINIMUM_RECV_SIZE <= inCapacity <= BUF_SIZE
      modifies `inbuf, `inCapacity
      ensures taken <= |arriving| && inbuf == old(inbuf) + arriving[..taken]
      ensures |inbuf| < inCapacity || |inbuf| == inCapacity == BUF_SIZE
      ensures MINIMUM_RECV_SIZE <= inCapacity <= BUF_SIZE
      ensures |arriving| > 0 && |offers| > 0 && offers[0] > 0 ==> taken > 0
      ensures Generous(offers, arriving) ==> taken == |arriving| || |inbuf| == BUF_SIZE
    {
      hide Frames, PacketsIn, WholeFrame;
      taken := 0;
      var calls := 0;
      while true
        invariant calls <= taken
        invariant taken <= |arriving| && inbuf == old(inbuf) + arriving[..taken]
        invariant |inbuf| <= inCapacity && MINIMUM_RECV_SIZE <= inCapacity <= BUF_SIZE
        invariant if calls == 0 then taken == 0 && |inbuf| < inCapacity
                  else |arriving| > 0 && |offers| > 0 && offers[0] > 0 ==> taken > 0
        decreases BUF_SIZE - |inbuf|
      {
        var len, more := ReceiveOnce(arriving, taken, if calls < |offers| then offers[calls] else -1);
        calls := calls + 1;
        if len >= 0 {
          taken := taken + len;
        }
        if !more {
          assert Generous(offers, arriving) ==> calls - 1 < |offers| && offers[calls - 1] >= BUF_SIZE;
          break;
        }
      }
    }

    /** OnReadEvent of a socket that does not listen. */
    method OnReadEvent(arriving: seq<Byte>, offers: seq<int>) returns (taken: nat, packets: seq<seq<Byte>>)
      requires Valid()
      modifies `inbuf, `inCapacity, `received, `signaled
      ensures Valid() && taken <= |arriving|
      ensures received == old(received) + arriving[..taken]
      ensures signaled == old(signaled) + packets
      ensures Generous(offers, arriving) ==> taken == |arriving| || |old(inbuf)| + taken == BUF_SIZE
      ensures |arriving| > 0 && |offers| > 0 && offers[0] > 0 ==> taken > 0
    {
      hide PacketsIn, RestOf, Frames, WholeFrame, Recv;
      Leftover(inbuf);
      taken := Receive(arriving, offers);
      packets := [];
      PacketsInPieces(received, arriving[..taken]);
      FramesOfPackets(inbuf);
      Leftover(RestOf(inbuf));
      received := received + arriving[..taken];
      if taken == 0 {
        assert received == old(received) && inbuf == old(inbuf);
        return;
      }
      var rest;
      packets, rest := ProcessInput(inbuf);
      inbuf, signaled := rest, signaled + packets;
    }
  }

  /** What is left in the buffer is less than a frame, which leaves room for more. */
  lemma Leftover(data: seq<Byte>)
    requires !WholeFrame(data)
    ensures |data| < PACKET_LEN_SIZE + 0xFFFF < BUF_SIZE
  {
  }

  // ---------- from end to end ----------

  lemma {:induction false} PrefixOfPackets(shorter: seq<seq<Byte>>, all: seq<seq<Byte>>, rest: seq<Byte>, bytes: seq<Byte>)
    requires Small(shorter) && Small(all) && !WholeFrame(rest) && Frames(shorter) + rest + bytes == Frames(all)
    ensures shorter <= all
    ensures bytes == [] ==> shorter == all && rest == []
  {
    hide PacketsIn, RestOf, Frames, WholeFrame;
    PacketsOfFrames(all, []);
    assert Frames(all) + [] == Frames(all);
    NothingIn();
    assert all + [] == all;
    Join(Frames(shorter), rest, bytes);
    PacketsOfFrames(shorter, rest + bytes);
    if bytes == [] {
      assert rest + bytes == rest && shorter + [] == shorter;
      NothingWhole(rest);
    }
  }

  lemma NothingIn()
    ensures PacketsIn([]) == [] && RestOf([]) == []
  {
  }

  lemma NothingWhole(data: seq<Byte>)
    requires !WholeFrame(data)
    ensures PacketsIn(data) == [] && RestOf(data) == data
  {
  }

  /** Two prefixes of the same sequence. */
  lemma Comparable<T>(a: seq<T>, b: seq<T>, all: seq<T>)
    requires a <= all && b <= all
    ensures a <= b || b <= a
  {
    if |a| <= |b| {
      assert a == all[..|a|] == b[..|a|];
    } else {
      assert b == all[..|b|] == a[..|b|];
    }
  }

  /** Packets that a length can describe arrive unharmed as far as the stream has got, whatever comes after them. */
  lemma SmallOnesFirst(accepted: seq<seq<Byte>>, k: nat, received: seq<Byte>, unread: seq<Byte>)
    requires k <= |accepted| && Small(accepted[..k]) && received + unread == Frames(accepted)
    ensures PacketsIn(received) <= accepted[..k] || accepted[..k] <= PacketsIn(received)
  {
    hide PacketsIn, RestOf, Frames, WholeFrame;
    var all := PacketsIn(Frames(accepted));
    PacketsInPieces(received, unread);
    FramesAppend(accepted[..k], accepted[k..]);
    assert accepted[..k] + accepted[k..] == accepted;
    PacketsOfFrames(accepted[..k], Frames(accepted[k..]));
    Comparable(PacketsIn(received), accepted[..k], all);
  }

  /**
   * A sender and a receiver with a stream between them that keeps the order of its bytes, whatever has been sent,
   * flushed, dropped and read, in whatever pieces. The receiver signals the accepted packets, unchanged and in order, up
   * to the first that is longer than a length can say. All of them are there as soon as all bytes have arrived if and
   * only if there is no such packet.
   */
  lemma Delivery(sender: AsyncTcpSocket, receiver: AsyncTcpSocket)
    requires sender.Valid() && receiver.Valid() && receiver.received <= sender.sent
    ensures forall k: nat | k <= |sender.accepted| && Small(sender.accepted[..k]) ::
              receiver.signaled <= sender.accepted[..k] || sender.accepted[..k] <= receiver.signaled
    ensures Small(sender.accepted) ==> receiver.signaled <= sender.accepted
    ensures receiver.received == sender.sent && sender.outbuf == [] ==>
              (receiver.signaled == sender.accepted && receiver.inbuf == [] <==> Small(sender.accepted))
    ensures |receiver.inbuf| < PACKET_LEN_SIZE + 0xFFFF < BUF_SIZE
  {
    hide PacketsIn, RestOf, Frames, WholeFrame, Small;
    var n := |receiver.received|;
    var unread := sender.sent[n..] + sender.outbuf;
    FramesOfPackets(receiver.received);
    Join(receiver.received, sender.sent[n..], sender.outbuf);
    assert receiver.received + sender.sent[n..] == sender.sent;
    forall k: nat | k <= |sender.accepted| && Small(sender.accepted[..k])
      ensures receiver.signaled <= sender.accepted[..k] || sender.accepted[..k] <= receiver.signaled
    {
      SmallOnesFirst(sender.accepted, k, receiver.received, unread);
    }
    if Small(sender.accepted) {
      PrefixOfPackets(receiver.signaled, sender.accepted, receiver.inbuf, unread);
    }
    Leftover(receiver.inbuf);
  }

  /** A packet is signaled as soon as its last byte has arrived, whatever is sent after it. */
  lemma Prompt(sender: AsyncTcpSocket, receiver: AsyncTcpSocket, k: nat)
    requires sender.Valid() && receiver.Valid() && receiver.received <= sender.sent
    requires k <= |sender.accepted| && Small(sender.accepted[..k]) && Frames(sender.accepted[..k]) <= receiver.received
    ensures sender.accepted[..k] <= receiver.signaled
  {
    hide PacketsIn, RestOf, Frames, WholeFrame;
    var bytes := Frames(sender.accepted[..k]);
    assert receiver.received == bytes + receiver.received[|bytes|..];
    PacketsOfFrames(sender.accepted[..k], receiver.received[|bytes|..]);
  }
}

/** Messages on a byte stream: jerry-debugger/jerry_client_rawpacket.py, jerry_client_websocket.py and the buffers of
    jerry-core/api/jerry-debugger-transport.c. */
module Framing {
  import opened Bytes
  import Words

  type Message = seq<Byte>

  // ---------------------------------------------------------------- frames

  /** `RawPacket` writes the size only, `WebSocket` the header of section 5.2 of RFC 6455 for a short binary message. */
  datatype Kind = Raw | Web

  function Header(kind: Kind, size: Byte): seq<Byte> {
    if kind == Raw then [size] else [0x82, size]
  }

  /** The sizes a frame can have; a WebSocket frame of 126 bytes or more has a longer header. */
  function MaxSize(kind: Kind): Byte {
    if kind == Raw then 255 else 125
  }

  predicate Fits(kind: Kind, m: Message) {
    1 <= |m| <= MaxSize(kind)
  }

  function Frame(kind: Kind, m: Message): seq<Byte>
    requires Fits(kind, m)
  {
    Header(kind, |m|) + m
  }

  predicate AllFit(kind: Kind, ms: seq<Message>) {
    forall m | m in ms :: Fits(kind, m)
  }

  function Frames(kind: Kind, ms: seq<Message>): seq<Byte>
    requires AllFit(kind, ms)
  {
    if ms == [] then [] else Frame(kind, ms[0]) + Frames(kind, ms[1..])
  }

  /** A header, a payload and what follows, of which only a part has arrived. */
  lemma Arrived(header: seq<Byte>, m: Message, tail: seq<Byte>, buffer: seq<Byte>, incoming: seq<Byte>)
    requires buffer + incoming == header + m + tail
    ensures |buffer| >= |header| ==> buffer[..|header|] == header
    ensures |buffer| >= |header| + |m| ==>
      buffer[|header|..|header| + |m|] == m && buffer[|header| + |m|..] + incoming == tail
  {
    var h, e, stream := |header|, |header| + |m|, header + m + tail;
    if |buffer| >= h {
      assert buffer[..h] == (buffer + incoming)[..h] == stream[..h];
    }
    if |buffer| >= e {
      assert buffer[h..e] == (buffer + incoming)[h..e] == stream[h..e] == m;
      assert buffer[e..] + incoming == (buffer + incoming)[e..] == stream[e..] == tail;
    }
  }

  /** Of a stream of frames: what its first bytes say. */
  lemma {:induction false} FirstFrame(kind: Kind, ms: seq<Message>, buffer: seq<Byte>, incoming: seq<Byte>)
    requires AllFit(kind, ms) && buffer + incoming == Frames(kind, ms)
    ensures buffer + incoming == [] <==> ms == []
    ensures |buffer| >= |Header(kind, 0)| ==>
      && ms != [] && buffer[|Header(kind, 0)| - 1] == |ms[0]| && (kind == Web ==> buffer[0] == 0x82)
    ensures var h := |Header(kind, 0)|;
      ms != [] && |buffer| >= h + |ms[0]| ==>
        buffer[h..h + |ms[0]|] == ms[0] && AllFit(kind, ms[1..]) && buffer[h + |ms[0]|..] + incoming == Frames(kind, ms[1..])
  {
    if ms == [] {
      assert |buffer + incoming| == 0;
      return;
    }
    var h := |Header(kind, 0)|;
    assert ms[0] in ms && Fits(kind, ms[0]);
    var header, tail := Header(kind, |ms[0]|), Frames(kind, ms[1..]);
    assert |header| == h && header[h - 1] == |ms[0]|;
    Arrived(header, ms[0], tail, buffer, incoming);
    if |buffer| >= h {
      assert buffer[h - 1] == buffer[..h][h - 1] && buffer[0] == buffer[..h][0];
    }
    assert |buffer + incoming| >= h;
  }

  // ---------------------------------------------------------------- the protocol below

  /** What arrives and leaves: bytes come in pieces of any size until the peer has sent everything and closes, and are
      taken in pieces of any size. */
  class Protocol {
    var incoming: seq<Byte>
    var sent: seq<Byte>

    /** Nothing is received only behind the end. */
    method ReceiveData(max: nat) returns (data: seq<Byte>)
      requires max > 0
      modifies this`incoming
      ensures data + incoming == old(incoming) && |data| <= max
      ensures data == [] <==> old(incoming) == []
    {
      if incoming == [] {
        return [];
      }
      var k :| 1 <= k <= max && k <= |incoming|;
      data := incoming[..k];
      incoming := incoming[k..];
    }

    /** Whether something is there yet. */
    method Ready() returns (r: bool)
    {
      r := *;
    }

    method SendData(data: seq<Byte>) returns (k: nat)
      requires data != []
      modifies this`sent
      ensures 1 <= k <= |data| && sent == old(sent) + data[..k]
    {
      k :| 1 <= k <= |data|;
      sent := sent + data[..k];
    }
  }

  /** The loop of both channels: every byte is sent once and in order. */
  method SendAll(protocol: Protocol, bytes: seq<Byte>)
    modifies protocol`sent
    ensures protocol.sent == old(protocol.sent) + bytes
  {
    var data, size := bytes, |bytes|;
    ghost var done := 0;
    while size > 0
      invariant size == |data| || size == 0
      invariant protocol.sent + (if size == 0 then [] else data) == old(protocol.sent) + bytes
      decreases size
    {
      var k := protocol.SendData(data);
      if k < size {
        assert data == data[..k] + data[k..];
        data := data[k..];
      }
      size := size - k;
    }
  }

  datatype Received = BadFrame | Closed | Nothing | Got(m: Message)

  /** `RawPacket` and `WebSocket`; the buffer of a WebSocket goes when the connection ends. */
  class Channel {
    const kind: Kind
    const protocol: Protocol
    var dataBuffer: seq<Byte>
    var closed: bool

    constructor (kind: Kind, protocol: Protocol)
      ensures this.kind == kind && this.protocol == protocol && dataBuffer == [] && !closed
    {
      this.kind, this.protocol := kind, protocol;
      dataBuffer, closed := [], false;
    }

    /** The bytes that have not become messages. */
    ghost function Rest(): seq<Byte>
      reads this, protocol
    {
      dataBuffer + protocol.incoming
    }

    /** `get_message`, on a stream of whole frames, however it is cut into pieces: the next message, or nothing yet, or the
        end behind the last message; never a bad frame. */
    method GetMessage(blocking: bool, ghost ms: seq<Message>) returns (r: Received)
      requires AllFit(kind, ms) && !closed && Rest() == Frames(kind, ms)
      modifies this, protocol`incoming
      ensures match r
        case BadFrame => false
        case Got(m) => ms != [] && m == ms[0] && !closed && AllFit(kind, ms[1..]) && Rest() == Frames(kind, ms[1..])
        case Nothing =>
          && !blocking && !closed && Rest() == Frames(kind, ms)
          && (ms == [] || |dataBuffer| < |Header(kind, 0)| + |ms[0]|)
        case Closed => ms == []
    {
      while true
        invariant !closed && Rest() == Frames(kind, ms)
        decreases |protocol.incoming|
      {
        FirstFrame(kind, ms, dataBuffer, protocol.incoming);
        var h := if kind == Raw then 1 else 2;
        if |dataBuffer| >= h {
          if kind == Web && dataBuffer[0] != 0x82 {
            return BadFrame;
          }
          var size: int := dataBuffer[h - 1];
          assert ms[0] in ms;
          if size == 0 || (kind == Web && size >= 126) {
            return BadFrame;
          }
          if |dataBuffer| >= size + h {
            r := Got(dataBuffer[h..size + h]);
            dataBuffer := dataBuffer[size + h..];
            return;
          }
        }
        if !blocking {
          var ready := protocol.Ready();
          if !ready {
            return Nothing;
          }
        }
        var data := protocol.ReceiveData(if kind == Raw then 256 else 128);
        if data == [] {
          if kind == Web {
            closed := true;
          }
          return Closed;
        }
        assert dataBuffer + data + protocol.incoming == dataBuffer + (data + protocol.incoming);
        dataBuffer := dataBuffer + data;
      }
    }

    /** Any mix of blocking and other calls gives a prefix of the messages in order and leaves the rest. */
    method Calls(blocking: seq<bool>, ghost ms: seq<Message>) returns (got: seq<Message>)
      requires AllFit(kind, ms) && !closed && Rest() == Frames(kind, ms)
      modifies this, protocol`incoming
      ensures got <= ms
      ensures !closed ==> AllFit(kind, ms[|got|..]) && (Rest() == Frames(kind, ms[|got|..]) || got == ms)
      ensures (forall k | 0 <= k < |blocking| :: blocking[k]) ==> got == if |blocking| <= |ms| then ms[..|blocking|] else ms
    {
      hide Rest, Frames, AllFit;
      got := [];
      for i := 0 to |blocking|
        invariant got <= ms && !closed && AllFit(kind, ms[|got|..]) && Rest() == Frames(kind, ms[|got|..])
        invariant (forall k | 0 <= k < i :: blocking[k]) ==> |got| == i
      {
        ghost var rest := ms[|got|..];
        var r := GetMessage(blocking[i], rest);
        match r {
          case BadFrame =>
            assert false;
          case Closed =>
            assert got == ms;
            return;
          case Nothing =>
          case Got(m) =>
            assert rest[1..] == ms[|got| + 1..];
            got := got + [m];
        }
      }
    }

    /** `send_message` of the raw packets: the size is part of the data. */
    method SendRaw(data: seq<Byte>)
      modifies protocol`sent
      ensures protocol.sent == old(protocol.sent) + data
    {
      SendAll(protocol, data);
    }

    /** `send_message` of the WebSocket: a short binary frame whose payload is masked with zeros, section 5.3 of RFC 6455. */
    method SendWeb(data: seq<Byte>)
      requires data != [] && data[0] == |data| - 1 < 126
      modifies protocol`sent
      ensures protocol.sent == old(protocol.sent) + Masked(data[1..])
    {
      SendAll(protocol, [0x82, 0x80 + data[0], 0, 0, 0, 0] + data[1..]);
    }
  }

  /** A client frame with a mask of zeros. */
  function Masked(m: Message): seq<Byte>
    requires |m| < 126
  {
    [0x82, 0x80 + |m|, 0, 0, 0, 0] + m
  }

  // ---------------------------------------------------------------- engine buffers

  /** `jerry_debugger_transport_receive_completed`: the bytes behind the message move to the front; a length of 0 means
      that all of them belong to it. */
  method ReceiveCompleted(buffer: array<Byte>, received: nat, total: nat) returns (left: nat)
    requires total <= received <= buffer.Length
    modifies buffer
    ensures left == if total == 0 then 0 else received - total
    ensures buffer[..left] == if total == 0 then [] else old(buffer[total..received])
  {
    if total == 0 || total == received {
      return 0;
    }
    left := received - total;
    forall k | 0 <= k < left {
      buffer[k] := buffer[total + k];
    }
    assert forall k | 0 <= k < left :: buffer[..left][k] == old(buffer[total..received])[k];
  }

  /** `jerry_debugger_transport_send`: the payloads passed on, none of them empty or too long, make up the message. */
  method TransportSend(message: seq<Byte>, max: nat) returns (payloads: seq<seq<Byte>>)
    requires message != [] && max > 0
    ensures Joined(payloads) == message
    ensures forall p | p in payloads :: 1 <= |p| <= max
    ensures |payloads| == (|message| + max - 1) / max
  {
    hide Joined;
    payloads := [];
    NothingJoined();
    var rest := message;
    while true
      invariant rest != [] && Joined(payloads) + rest == message
      invariant forall p | p in payloads :: 1 <= |p| <= max
      invariant |message| == |payloads| * max + |rest|
      decreases |rest|
    {
      var length := if |rest| <= max then |rest| else max;
      JoinedMore(payloads, rest[..length]);
      assert rest == rest[..length] + rest[length..];
      ghost var before, size := payloads, |rest|;
      payloads := payloads + [rest[..length]];
      rest := rest[length..];
      PieceCount(|before|, max, size, |message|);
      if rest == [] {
        return;
      }
    }
  }

  lemma PieceCount(n: nat, max: nat, rest: nat, total: nat)
    requires max > 0 && rest > 0 && total == n * max + rest
    ensures rest <= max ==> (total + max - 1) / max == n + 1
    ensures rest > max ==> total == (n + 1) * max + (rest - max)
  {
    if rest <= max {
      assert total + max - 1 == max * (n + 1) + (rest - 1);
      Words.ModUnique(total + max - 1, max, n + 1, rest - 1);
    }
  }
}

/** Message framing on the local network (src-tauri/src/network/protocol.rs) and its two read
loops (server.rs, client.rs). */
module LanFraming {
  // The loops start with an empty buffer, after the handshake.

  import opened Bytes
  import opened Sequences
  import opened Wrappers

  const HEADER_SIZE: nat := 5
  const MAX_MESSAGE_SIZE: nat := 128 * 1024 * 1024
  const PING: byte := 0x06
  const PONG: byte := 0x07

  datatype Message = Message(msgType: byte, payload: seq<byte>)

  datatype DecodeResult =
    | Decoded(message: Message, consumed: nat)
    | MessageTooShort
    | InvalidMessageType(value: byte)
    | MessageTooLarge(size: nat)
    | PayloadLengthMismatch

  datatype MessageType =
    | Hello | Update | SnapshotRequest | Snapshot | Ack | Ping | Pong | CatchUp | History | Compact
    | DeviceRegistry | DeviceUpdate | DeviceRevoke | DeviceRevokeAck | DeviceRename

  /** The byte that stands for a type: the discriminants of the enumeration. */
  function ToByte(m: MessageType): byte {
    match m
    case Hello => 0x01
    case Update => 0x02
    case SnapshotRequest => 0x03
    case Snapshot => 0x04
    case Ack => 0x05
    case Ping => 0x06
    case Pong => 0x07
    case CatchUp => 0x08
    case History => 0x09
    case Compact => 0x0a
    case DeviceRegistry => 0x10
    case DeviceUpdate => 0x11
    case DeviceRevoke => 0x12
    case DeviceRevokeAck => 0x13
    case DeviceRename => 0x14
  }

  /** try_from: its own table. */
  function TryFrom(t: byte): Option<MessageType> {
    if t == 0x01 then Some(Hello)
    else if t == 0x02 then Some(Update)
    else if t == 0x03 then Some(SnapshotRequest)
    else if t == 0x04 then Some(Snapshot)
    else if t == 0x05 then Some(Ack)
    else if t == 0x06 then Some(Ping)
    else if t == 0x07 then Some(Pong)
    else if t == 0x08 then Some(CatchUp)
    else if t == 0x09 then Some(History)
    else if t == 0x0a then Some(Compact)
    else if t == 0x10 then Some(DeviceRegistry)
    else if t == 0x11 then Some(DeviceUpdate)
    else if t == 0x12 then Some(DeviceRevoke)
    else if t == 0x13 then Some(DeviceRevokeAck)
    else if t == 0x14 then Some(DeviceRename)
    else None
  }

  predicate ValidType(t: byte) { TryFrom(t).Some? }

  /** The two tables agree, in both directions; the loops' constants are the ping and the pong. */
  lemma TypesExactly(t: byte, m: MessageType)
    ensures TryFrom(t) == Some(m) <==> t == ToByte(m)
    ensures ValidType(t) <==> exists n: MessageType :: ToByte(n) == t
    ensures PING == ToByte(Ping) && PONG == ToByte(Pong)
  {
    if ValidType(t) { assert ToByte(TryFrom(t).value) == t; }
  }

  function DecodeMessage(data: seq<byte>): (r: DecodeResult)
    ensures r.Decoded? ==> HEADER_SIZE <= r.consumed <= |data| && r.message.msgType == data[0]
    ensures |data| < HEADER_SIZE ==> r == MessageTooShort
  {
    if |data| < HEADER_SIZE then MessageTooShort
    else if !ValidType(data[0]) then InvalidMessageType(data[0])
    else
      var length := FromLe32(data[1..5]);
      if length > MAX_MESSAGE_SIZE then MessageTooLarge(length)
      else if |data| < HEADER_SIZE + length then PayloadLengthMismatch
      else Decoded(Message(data[0], data[HEADER_SIZE..HEADER_SIZE + length]), HEADER_SIZE + length)
  }

  function Encode(m: Message): seq<byte> {
    Frame(m.msgType, m.payload)
  }

  function EncodeAll(messages: seq<Message>): seq<byte> {
    if messages == [] then [] else Encode(messages[0]) + EncodeAll(messages[1..])
  }

  // ---------------------------------------------------------------- one frame

  /** Encoding and decoding undo each other, whatever follows the frame, exactly for payloads
      up to the limit. A longer one is refused or, when the 32-bit length field wraps, cut. */
  lemma FrameRoundTripExactly(m: Message, rest: seq<byte>)
    requires ValidType(m.msgType)
    ensures DecodeMessage(Encode(m) + rest) == Decoded(m, |Encode(m)|) <==> |m.payload| <= MAX_MESSAGE_SIZE
  {
    FrameParts(m.msgType, m.payload, rest);
    if |m.payload| <= MAX_MESSAGE_SIZE {
      assert FromLe32(Le32(|m.payload|)) == |m.payload|;
    } else {
      assert DecodeMessage(Encode(m) + rest).Decoded? ==>
          |DecodeMessage(Encode(m) + rest).message.payload| <= MAX_MESSAGE_SIZE;
    }
  }

  /** More bytes never change a verdict, except to complete a frame that was incomplete. */
  lemma DecodeStable(data: seq<byte>, more: seq<byte>)
    requires !DecodeMessage(data).MessageTooShort? && !DecodeMessage(data).PayloadLengthMismatch?
    ensures DecodeMessage(data + more) == DecodeMessage(data)
  {
    assert (data + more)[1..5] == data[1..5];
    var decoded := DecodeMessage(data);
    if decoded.Decoded? {
      assert (data + more)[HEADER_SIZE..decoded.consumed] == data[HEADER_SIZE..decoded.consumed];
    }
  }

  /** The data begin with a header that announces a type and a payload length. */
  predicate Announces(data: seq<byte>, t: byte, length: nat) {
    length < TWO_TO_THE_32 && [t] + Le32(length) <= data
  }

  lemma HeaderIs(data: seq<byte>)
    requires |data| >= HEADER_SIZE
    ensures Announces(data, data[0], FromLe32(data[1..5]))
    ensures forall t, length :: Announces(data, t, length) ==> t == data[0] && length == FromLe32(data[1..5])
  {
    Le32OfFromLe32(data[1..5]);
    assert [data[0]] + data[1..5] == data[..5];
    forall t, length | Announces(data, t, length) ensures t == data[0] && length == FromLe32(data[1..5]) {
      var header := [t] + Le32(length);
      assert data[..5] == header;
      assert data[0] == header[0] && data[1..5] == header[1..5] == Le32(length);
    }
  }

  /** A message comes out exactly when the data begin with its frame, its type is known and its
      payload within the limit; what comes out has been consumed to the byte. */
  lemma DecodedExactly(data: seq<byte>, m: Message, consumed: nat)
    ensures DecodeMessage(data) == Decoded(m, consumed)
            <==> Encode(m) <= data && ValidType(m.msgType) && |m.payload| <= MAX_MESSAGE_SIZE && consumed == |Encode(m)|
  {
    hide ValidType, Le32, FromLe32;
    if Encode(m) <= data && ValidType(m.msgType) {
      var rest := data[|Encode(m)|..];
      assert data == Encode(m) + rest;
      FrameRoundTripExactly(m, rest);
      if |m.payload| > MAX_MESSAGE_SIZE && DecodeMessage(data) == Decoded(m, consumed) { assert false; }
    }
    if DecodeMessage(data) == Decoded(m, consumed) {
      HeaderIs(data);
      var length := FromLe32(data[1..5]);
      assert |m.payload| == length;
      assert data[..consumed] == data[..5] + data[5..consumed];
      assert data[..5] == [data[0]] + Le32(length);
      assert Encode(m) == data[..consumed];
    }
  }

  /** And what is refused, and how, is told by the header: an unknown type first, then a length
      above 128 MiB, then a payload that has not come in full. */
  lemma RefusedExactly(data: seq<byte>, t: byte, size: nat)
    ensures DecodeMessage(data) == MessageTooShort <==> |data| < 5
    ensures DecodeMessage(data) == InvalidMessageType(t) <==> (exists n :: Announces(data, t, n)) && !ValidType(t)
    ensures DecodeMessage(data) == MessageTooLarge(size)
            <==> size > 134217728 && exists u :: Announces(data, u, size) && ValidType(u)
    ensures DecodeMessage(data) == PayloadLengthMismatch
            <==> exists u, n: nat :: Announces(data, u, n) && ValidType(u) && n <= 134217728 && |data| < 5 + n
  {
    hide ValidType, Le32, FromLe32;
    if |data| >= HEADER_SIZE { HeaderIs(data); }
  }

  // ---------------------------------------------------------------- a whole stream

  /** What is in a byte stream: the messages at its head, and the bytes left over. */
  function Parse(data: seq<byte>): (seq<Message>, seq<byte>) {
    var head := DecodeMessage(data);
    if head.Decoded? then
      var (messages, rest) := Parse(data[head.consumed..]);
      ([head.message] + messages, rest)
    else ([], data)
  }

  lemma ParseStep(data: seq<byte>)
    ensures var head := DecodeMessage(data);
            if head.Decoded? then
              && Parse(data).0 == [head.message] + Parse(data[head.consumed..]).0
              && Parse(data).1 == Parse(data[head.consumed..]).1
            else Parse(data) == ([], data)
  {
  }

  /** Parsing what has come, and then the left-over bytes with what comes next, is parsing it
      all: this is why the split into reads does not matter. */
  lemma {:induction false} ParseAppend(data: seq<byte>, more: seq<byte>)
    ensures Parse(data + more).0 == Parse(data).0 + Parse(Parse(data).1 + more).0
    ensures Parse(data + more).1 == Parse(Parse(data).1 + more).1
    decreases |data|
  {
    hide Parse, DecodeMessage;
    var head := DecodeMessage(data);
    ParseStep(data);
    if head.Decoded? {
      DecodeStable(data, more);
      ParseStep(data + more);
      var tail := data[head.consumed..];
      assert (data + more)[head.consumed..] == tail + more;
      ParseAppend(tail, more);
      Assoc([head.message], Parse(tail).0, Parse(Parse(tail).1 + more).0);
    } else {
      assert [] + Parse(data + more).0 == Parse(data + more).0;
    }
  }

  lemma {:induction false} ParseRestIncomplete(data: seq<byte>)
    ensures !DecodeMessage(Parse(data).1).Decoded?
    decreases |data|
  {
    var head := DecodeMessage(data);
    if head.Decoded? { ParseRestIncomplete(data[head.consumed..]); }
  }

  /** Between reads the buffer holds no complete frame, so it stays below header plus limit
      unless its head is malformed. */
  lemma BufferBounded(data: seq<byte>)
    ensures var rest := Parse(data).1;
            |rest| < HEADER_SIZE + MAX_MESSAGE_SIZE
            || DecodeMessage(rest).InvalidMessageType? || DecodeMessage(rest).MessageTooLarge?
  {
    ParseRestIncomplete(data);
  }

  /** Well-formed frames come out exactly as they went in, and nothing is left over. */
  lemma {:induction false} ParseEncoded(messages: seq<Message>)
    requires forall m :: m in messages ==> ValidType(m.msgType) && |m.payload| <= MAX_MESSAGE_SIZE
    ensures Parse(EncodeAll(messages)) == (messages, [])
  {
    if messages != [] {
      var tail := EncodeAll(messages[1..]);
      FrameRoundTripExactly(messages[0], tail);
      assert (Encode(messages[0]) + tail)[|Encode(messages[0])|..] == tail;
      ParseEncoded(messages[1..]);
      assert [messages[0]] + messages[1..] == messages;
    }
  }

  // ---------------------------------------------------------------- reads

  /** The bytes a sequence of chunks delivers: an empty read is the end of the stream. */
  function Received(chunks: seq<seq<byte>>): seq<byte> {
    if chunks == [] || chunks[0] == [] then [] else chunks[0] + Received(chunks[1..])
  }

  predicate IsForServer(m: Message) { m.msgType != PING && m.msgType != PONG }

  predicate IsForClient(m: Message) { m.msgType != PONG }

  function OfType(t: byte): Message -> bool { (m: Message) => m.msgType == t }

  function ForServer(messages: seq<Message>): seq<Message> { Select(messages, IsForServer) }

  function ForClient(messages: seq<Message>): seq<Message> { Select(messages, IsForClient) }

  function Count(messages: seq<Message>, t: byte): nat { |Select(messages, OfType(t))| }

  lemma FiltersAppend(a: seq<Message>, b: seq<Message>)
    ensures ForServer(a + b) == ForServer(a) + ForServer(b)
    ensures ForClient(a + b) == ForClient(a) + ForClient(b)
    ensures forall t :: Count(a + b, t) == Count(a, t) + Count(b, t)
  {
    hide Select;
    SelectAppend(a, b, IsForServer);
    SelectAppend(a, b, IsForClient);
    forall t ensures Count(a + b, t) == Count(a, t) + Count(b, t) { SelectAppend(a, b, OfType(t)); }
  }

  lemma FiltersOne(m: Message)
    ensures ForServer([m]) == if IsForServer(m) then [m] else []
    ensures ForClient([m]) == if IsForClient(m) then [m] else []
    ensures forall t :: Count([m], t) == if m.msgType == t then 1 else 0
  {
    hide Select;
    SelectOne(m, IsForServer);
    SelectOne(m, IsForClient);
    forall t ensures Count([m], t) == if m.msgType == t then 1 else 0 { SelectOne(m, OfType(t)); }
  }

  predicate Nobody(m: Message) { false }

  /** Nothing is lost or made up: every message is forwarded, or a ping, or a pong, and what is
      forwarded are exactly the others (to the client, pings too). */
  lemma AllAccountedFor(messages: seq<Message>, m: Message)
    ensures |ForServer(messages)| + Count(messages, ToByte(Ping)) + Count(messages, ToByte(Pong)) == |messages|
    ensures |ForClient(messages)| + Count(messages, ToByte(Pong)) == |messages|
    ensures m in ForServer(messages) <==> m in messages && m.msgType != ToByte(Ping) && m.msgType != ToByte(Pong)
    ensures m in ForClient(messages) <==> m in messages && m.msgType != ToByte(Pong)
  {
    hide Select;
    SelectMembers(messages, IsForServer);
    SelectMembers(messages, IsForClient);
    SelectThree(messages, IsForServer, OfType(PING), OfType(PONG));
    SelectThree(messages, IsForClient, OfType(PONG), Nobody);
    SelectNone(messages, Nobody);
  }

  /** All chunks up to an empty one, and nothing after it. */
  lemma {:induction false} ReceivedExactly(chunks: seq<seq<byte>>, chunk: seq<byte>, after: seq<seq<byte>>)
    requires forall i :: 0 <= i < |chunks| ==> chunks[i] != []
    ensures Received(chunks + [chunk]) == Received(chunks) + chunk
    ensures Received(chunks + [[]] + after) == Received(chunks)
    decreases |chunks|
  {
    if chunks == [] {
      assert [] + [chunk] == [chunk] && [chunk][1..] == [];
      assert ([] + [[]] + after)[0] == [];
    } else {
      assert (chunks + [chunk])[1..] == chunks[1..] + [chunk];
      assert (chunks + [[]] + after)[1..] == chunks[1..] + [[]] + after;
      ReceivedExactly(chunks[1..], chunk, after);
    }
  }

  lemma NothingDone()
    ensures ForServer([]) == [] && ForClient([]) == [] && forall t :: Count([], t) == 0
  {
  }

  /** The connection handler of the server side. It answers pings itself and notes pongs. */
  class ServerConnection {
    var readBuffer: seq<byte>
    var forwarded: seq<Message>
    var pongsSent: nat
    var pongsSeen: nat

    constructor ()
      ensures readBuffer == [] && forwarded == [] && pongsSent == 0 && pongsSeen == 0
    {
      readBuffer, forwarded, pongsSent, pongsSeen := [], [], 0, 0;
    }

    /** The inner loop: handle every complete message in the buffer. */
    method ProcessBuffer() returns (disconnect: bool)
      modifies this
      ensures forwarded == old(forwarded) + ForServer(Parse(old(readBuffer)).0)
      ensures pongsSent == old(pongsSent) + Count(Parse(old(readBuffer)).0, PING)
      ensures pongsSeen == old(pongsSeen) + Count(Parse(old(readBuffer)).0, PONG)
      ensures readBuffer == Parse(old(readBuffer)).1
      ensures disconnect <==> DecodeMessage(readBuffer).MessageTooLarge?
    {
      hide Parse, DecodeMessage, ForServer, Count;
      ghost var done: seq<Message> := [];
      NothingDone();
      assert [] + Parse(readBuffer).0 == Parse(readBuffer).0;
      while |readBuffer| >= HEADER_SIZE
        invariant Parse(old(readBuffer)).0 == done + Parse(readBuffer).0
        invariant Parse(old(readBuffer)).1 == Parse(readBuffer).1
        invariant forwarded == old(forwarded) + ForServer(done)
        invariant pongsSent == old(pongsSent) + Count(done, PING)
        invariant pongsSeen == old(pongsSeen) + Count(done, PONG)
        decreases |readBuffer|
      {
        ParseStep(readBuffer);
        var result := DecodeMessage(readBuffer);
        match result {
          case Decoded(message, consumed) =>
            FiltersAppend(done, [message]);
            FiltersOne(message);
            if message.msgType == PING {
              pongsSent := pongsSent + 1;
            } else if message.msgType == PONG {
              pongsSeen := pongsSeen + 1;
            } else {
              forwarded := forwarded + [message];
            }
            readBuffer := readBuffer[consumed..];
            Assoc(done, [message], Parse(readBuffer).0);
            done := done + [message];
          case MessageTooLarge(_) =>
            assert done + [] == done;
            return true;
          case _ =>
            break;
        }
      }
      ParseStep(readBuffer);
      assert done + [] == done;
      disconnect := false;
    }

    /** What the connection has done once it has handled `messages`. */
    ghost predicate Handled(messages: seq<Message>) reads this {
      && forwarded == ForServer(messages)
      && pongsSent == Count(messages, PING)
      && pongsSeen == Count(messages, PONG)
    }

    method OnRead(ghost before: seq<byte>, chunk: seq<byte>) returns (disconnect: bool)
      requires Handled(Parse(before).0) && readBuffer == Parse(before).1
      modifies this
      ensures Handled(Parse(before + chunk).0) && readBuffer == Parse(before + chunk).1
      ensures disconnect <==> DecodeMessage(readBuffer).MessageTooLarge?
    {
      ParseAppend(before, chunk);
      FiltersAppend(Parse(before).0, Parse(readBuffer + chunk).0);
      readBuffer := readBuffer + chunk;
      disconnect := ProcessBuffer();
    }

    /** The outer loop. However the bytes are split into reads, what is handled depends only on
        the bytes; an oversized length field ends the connection. */
    method ReadLoop(chunks: seq<seq<byte>>) returns (disconnected: bool)
      requires Handled([]) && readBuffer == []
      modifies this
      ensures Handled(Parse(Received(chunks)).0)
      ensures disconnected <==> DecodeMessage(Parse(Received(chunks)).1).MessageTooLarge?
      ensures !disconnected ==> readBuffer == Parse(Received(chunks)).1
    {
      ghost var before: seq<byte> := [];
      var i := 0;
      while i < |chunks| && chunks[i] != []
        invariant i <= |chunks|
        invariant Received(chunks) == before + Received(chunks[i..])
        invariant Handled(Parse(before).0) && readBuffer == Parse(before).1
        invariant !DecodeMessage(readBuffer).MessageTooLarge?
      {
        ReceivedNext(chunks, i, before);
        disconnected := OnRead(before, chunks[i]);
        before := before + chunks[i];
        i := i + 1;
        if disconnected {
          StuckForever(before, Received(chunks[i..]));
          return;
        }
      }
      assert Received(chunks) == before;
      disconnected := false;
    }
  }

  lemma ReceivedNext(chunks: seq<seq<byte>>, i: nat, before: seq<byte>)
    requires i < |chunks| && chunks[i] != []
    ensures before + Received(chunks[i..]) == before + chunks[i] + Received(chunks[i + 1..])
  {
    assert chunks[i..][1..] == chunks[i + 1..];
  }

  /** Once the head of the buffer is oversized or of unknown type, nothing more comes out. */
  lemma StuckForever(data: seq<byte>, more: seq<byte>)
    requires var head := DecodeMessage(Parse(data).1); head.MessageTooLarge? || head.InvalidMessageType?
    ensures Parse(data + more) == (Parse(data).0, Parse(data).1 + more)
    ensures DecodeMessage(Parse(data).1 + more) == DecodeMessage(Parse(data).1)
  {
    ParseAppend(data, more);
    DecodeStable(Parse(data).1, more);
    assert Parse(data).0 + [] == Parse(data).0;
  }

  datatype PeerEvent = MessageReceived(message: Message) | TooLargeError | ProtocolError | Disconnected

  function MessagesOf(events: seq<PeerEvent>): seq<Message> {
    if events == [] then []
    else (if events[0].MessageReceived? then [events[0].message] else []) + MessagesOf(events[1..])
  }

  predicate IsNotice(e: PeerEvent) { !e.MessageReceived? }

  function NoticesOf(events: seq<PeerEvent>): seq<PeerEvent> { Select(events, IsNotice) }

  lemma MessagesUnfold(events: seq<PeerEvent>)
    ensures MessagesOf(events)
            == if events == [] then []
               else (if events[0].MessageReceived? then [events[0].message] else []) + MessagesOf(events[1..])
  {
  }

  lemma {:induction false} MessagesSnoc(events: seq<PeerEvent>, e: PeerEvent)
    ensures MessagesOf(events + [e]) == MessagesOf(events) + if e.MessageReceived? then [e.message] else []
  {
    hide MessagesOf;
    MessagesUnfold(events);
    MessagesUnfold(events + [e]);
    if events == [] {
      MessagesUnfold([]);
      assert ([] + [e])[1..] == [];
    } else {
      assert (events + [e])[1..] == events[1..] + [e];
      MessagesSnoc(events[1..], e);
      Assoc(if events[0].MessageReceived? then [events[0].message] else [], MessagesOf(events[1..]),
            if e.MessageReceived? then [e.message] else []);
    }
  }

  lemma EventsSnoc(events: seq<PeerEvent>, e: PeerEvent)
    ensures MessagesOf(events + [e]) == MessagesOf(events) + if e.MessageReceived? then [e.message] else []
    ensures NoticesOf(events + [e]) == NoticesOf(events) + if e.MessageReceived? then [] else [e]
  {
    hide Select, MessagesOf;
    MessagesSnoc(events, e);
    SelectAppend(events, [e], IsNotice);
    SelectOne(e, IsNotice);
  }

  /** What the client reports of a left-over buffer after each read. */
  function Complaint(rest: seq<byte>): seq<PeerEvent> {
    match DecodeMessage(rest)
    case MessageTooLarge(_) => [TooLargeError]
    case InvalidMessageType(_) => [ProtocolError]
    case _ => []
  }

  /** The client side of the same framing: pings are forwarded too, and errors are reported. */
  class ClientConnection {
    var readBuffer: seq<byte>
    var events: seq<PeerEvent>
    var pongsSeen: nat

    constructor ()
      ensures readBuffer == [] && events == [] && pongsSeen == 0
    {
      readBuffer, events, pongsSeen := [], [], 0;
    }

    method Deliver(message: Message)
      modifies this`events, this`pongsSeen
      ensures MessagesOf(events) == MessagesOf(old(events)) + ForClient([message])
      ensures NoticesOf(events) == NoticesOf(old(events))
      ensures pongsSeen == old(pongsSeen) + Count([message], PONG)
    {
      hide MessagesOf, NoticesOf, ForClient, Count;
      FiltersOne(message);
      if message.msgType == PONG {
        pongsSeen := pongsSeen + 1;
      } else {
        EventsSnoc(events, MessageReceived(message));
        events := events + [MessageReceived(message)];
      }
    }

    method Report(notice: PeerEvent)
      requires !notice.MessageReceived?
      modifies this`events
      ensures MessagesOf(events) == MessagesOf(old(events))
      ensures NoticesOf(events) == NoticesOf(old(events)) + [notice]
    {
      EventsSnoc(events, notice);
      events := events + [notice];
    }

    method ProcessBuffer() returns (disconnect: bool)
      modifies this
      ensures MessagesOf(events) == MessagesOf(old(events)) + ForClient(Parse(old(readBuffer)).0)
      ensures pongsSeen == old(pongsSeen) + Count(Parse(old(readBuffer)).0, PONG)
      ensures readBuffer == Parse(old(readBuffer)).1
      ensures NoticesOf(events) == NoticesOf(old(events)) + Complaint(readBuffer)
      ensures disconnect <==> DecodeMessage(readBuffer).MessageTooLarge?
    {
      hide Parse, DecodeMessage, ForClient, Count, MessagesOf, NoticesOf;
      ghost var done: seq<Message> := [];
      NothingDone();
      assert [] + Parse(readBuffer).0 == Parse(readBuffer).0;
      while |readBuffer| >= HEADER_SIZE && DecodeMessage(readBuffer).Decoded?
        invariant Parse(old(readBuffer)).0 == done + Parse(readBuffer).0
        invariant Parse(old(readBuffer)).1 == Parse(readBuffer).1
        invariant MessagesOf(events) == MessagesOf(old(events)) + ForClient(done)
        invariant NoticesOf(events) == NoticesOf(old(events))
        invariant pongsSeen == old(pongsSeen) + Count(done, PONG)
        decreases |readBuffer|
      {
        ParseStep(readBuffer);
        var Decoded(message, consumed) := DecodeMessage(readBuffer);
        FiltersAppend(done, [message]);
        Deliver(message);
        readBuffer := readBuffer[consumed..];
        Assoc(done, [message], Parse(readBuffer).0);
        done := done + [message];
      }
      ParseStep(readBuffer);
      assert done + [] == done;
      disconnect := false;
      match DecodeMessage(readBuffer) {
        case MessageTooLarge(_) =>
          Report(TooLargeError);
          disconnect := true;
        case InvalidMessageType(_) =>
          Report(ProtocolError);
        case _ =>
      }
    }

    ghost predicate Handled(messages: seq<Message>) reads this {
      MessagesOf(events) == ForClient(messages) && pongsSeen == Count(messages, PONG)
    }

    /** One complaint for every read since the head of the buffer became unknown. */
    ghost predicate Complained(complaints: nat) reads this {
      && NoticesOf(events) == Repeat(ProtocolError, complaints)
      && (complaints > 0 <==> DecodeMessage(readBuffer).InvalidMessageType?)
    }

    method OnRead(ghost before: seq<byte>, chunk: seq<byte>, ghost complaints: nat)
      returns (disconnect: bool, ghost complaints': nat)
      requires Handled(Parse(before).0) && readBuffer == Parse(before).1 && Complained(complaints)
      modifies this
      ensures Handled(Parse(before + chunk).0) && readBuffer == Parse(before + chunk).1
      ensures disconnect <==> DecodeMessage(readBuffer).MessageTooLarge?
      ensures if disconnect then complaints' == 0 && NoticesOf(events) == [TooLargeError] else Complained(complaints')
    {
      ParseAppend(before, chunk);
      FiltersAppend(Parse(before).0, Parse(readBuffer + chunk).0);
      if complaints > 0 { StuckForever(before, chunk); }
      readBuffer := readBuffer + chunk;
      disconnect := ProcessBuffer();
      complaints' := if DecodeMessage(readBuffer).InvalidMessageType? then complaints + 1 else 0;
    }

    /** An oversized length field is reported and ends the loop without a Disconnected event; an
        unknown type is reported again after every later read, and nothing more is delivered. */
    method ReadLoop(chunks: seq<seq<byte>>) returns (ghost complaints: nat)
      requires readBuffer == [] && events == [] && pongsSeen == 0
      modifies this
      ensures Handled(Parse(Received(chunks)).0)
      ensures var head := DecodeMessage(Parse(Received(chunks)).1);
              && NoticesOf(events) == Repeat(ProtocolError, complaints)
                                      + [if head.MessageTooLarge? then TooLargeError else Disconnected]
              && (complaints > 0 <==> head.InvalidMessageType?)
    {
      ghost var before: seq<byte> := [];
      complaints := 0;
      var i := 0;
      while i < |chunks| && chunks[i] != []
        invariant i <= |chunks|
        invariant Received(chunks) == before + Received(chunks[i..])
        invariant Handled(Parse(before).0) && readBuffer == Parse(before).1 && Complained(complaints)
        invariant !DecodeMessage(readBuffer).MessageTooLarge?
      {
        ReceivedNext(chunks, i, before);
        var disconnect;
        disconnect, complaints := OnRead(before, chunks[i], complaints);
        before := before + chunks[i];
        i := i + 1;
        if disconnect {
          StuckForever(before, Received(chunks[i..]));
          return;
        }
      }
      assert Received(chunks) == before;
      Report(Disconnected);
    }
  }

  function Repeat<T>(t: T, n: nat): seq<T> {
    seq(n, _ => t)
  }

  // ---------------------------------------------------------------- main results

  /** For every list of well-formed frames and every split of their bytes into reads, the
      loops see exactly those messages in order, and the buffer ends empty. */
  lemma ReassemblyExact(messages: seq<Message>, chunks: seq<seq<byte>>)
    requires forall m :: m in messages ==> ValidType(m.msgType) && |m.payload| <= MAX_MESSAGE_SIZE
    requires Received(chunks) == EncodeAll(messages)
    ensures Parse(Received(chunks)) == (messages, [])
    ensures !DecodeMessage(Parse(Received(chunks)).1).MessageTooLarge?
  {
    ParseEncoded(messages);
  }
}

/** The bytes of HISTORY and COMPACT (sync-relay/src/sync-room.ts, sync-relay/src/protocol.ts)
and of their readers. */
module RelayWire {
  // The JSON text of a header is given: writing and reading it is a codec that the lemmas take
  // as an argument.

  import opened Wrappers
  import opened Bytes
  import opened Sequences

  const HISTORY: byte := 0x09
  const COMPACT: byte := 0x0a

  // ---------------------------------------------------------------- outer frame

  datatype Decoded = TooShort | RangeError | Decoded(msgType: byte, payload: seq<byte>)

  /** The relay ignores a message of fewer than 5 bytes; a length that reaches past the end of
      the message makes the view constructor throw. Bytes after the payload are not looked at. */
  function DecodeMessage(data: seq<byte>): Decoded {
    if |data| < 5 then TooShort
    else
      var length := FromLe32(data[1..5]);
      if |data| < 5 + length then RangeError else Decoded(data[0], data[5..5 + length])
  }

  /** A message is read as a type and a payload exactly when it begins with their frame; it is
      refused exactly when it is too short for a header or announces more than there is. */
  lemma DecodedExactly(data: seq<byte>, msgType: byte, payload: seq<byte>)
    ensures DecodeMessage(data) == Decoded(msgType, payload)
            <==> |payload| < TWO_TO_THE_32 && Frame(msgType, payload) <= data
    ensures DecodeMessage(data) == TooShort <==> |data| < 5
    ensures DecodeMessage(data) == RangeError
            <==> |data| >= 5 && exists n :: |data| < 5 + n < 5 + TWO_TO_THE_32 && data[1..5] == Le32(n)
  {
    hide Le32, FromLe32;
    if |data| >= 5 {
      var length := FromLe32(data[1..5]);
      Le32OfFromLe32(data[1..5]);
      if Frame(msgType, payload) <= data {
        FrameParts(msgType, payload, data[5 + |payload|..]);
        assert data == Frame(msgType, payload) + data[5 + |payload|..];
      }
      if DecodeMessage(data) == Decoded(msgType, payload) {
        assert data[..5 + length] == [data[0]] + data[1..5] + data[5..5 + length];
      }
    }
  }

  method EncodeMessage(msgType: byte, payload: seq<byte>) returns (result: array<byte>)
    ensures fresh(result) && result[..] == Frame(msgType, payload)
  {
    result := new byte[1 + 4 + |payload|](_ => 0);
    hide Le32;
    result[0] := msgType;
    assert result[..1] == [msgType];
    SetBytes(result, 1, Le32(|payload|));
    ghost var head := result[..];
    assert head[..5] == [msgType] + Le32(|payload|);
    SetBytes(result, 5, payload);
    assert head[5 + |payload|..] == [];
    assert result[..] == head[..5] + payload + [];
  }

  /** TypedArray.set: it throws unless the data fits, which the precondition excludes. */
  method SetBytes(target: array<byte>, offset: nat, data: seq<byte>)
    requires offset + |data| <= target.Length
    modifies target
    ensures target[..] == old(target[..offset]) + data + old(target[offset + |data|..])
  {
    var i := 0;
    while i < |data|
      invariant i <= |data|
      invariant forall k :: 0 <= k < target.Length ==>
                  target[k] == if offset <= k < offset + i then data[k - offset] else old(target[k])
    {
      target[offset + i] := data[i];
      i := i + 1;
    }
    assert target[..offset] == old(target[..offset]);
    assert target[offset..offset + |data|] == data;
    assert target[offset + |data|..] == old(target[offset + |data|..]);
    assert target[..] == target[..offset] + target[offset..offset + |data|] + target[offset + |data|..];
  }

  // ---------------------------------------------------------------- HISTORY

  function UpdatesSize(updates: seq<seq<byte>>): nat {
    if updates == [] then 0 else 4 + |updates[0]| + UpdatesSize(updates[1..])
  }

  function EncodeUpdates(updates: seq<seq<byte>>): (b: seq<byte>)
    ensures |b| == UpdatesSize(updates)
  {
    if updates == [] then [] else Le32(|updates[0]|) + updates[0] + EncodeUpdates(updates[1..])
  }

  function EncodeHistory(header: seq<byte>, updates: seq<seq<byte>>): seq<byte> {
    Le32(|header|) + header + EncodeUpdates(updates)
  }

  lemma EncodeUpdatesUnfold(updates: seq<seq<byte>>)
    ensures EncodeUpdates(updates)
            == if updates == [] then [] else Le32(|updates[0]|) + updates[0] + EncodeUpdates(updates[1..])
  {
  }

  lemma {:induction false} EncodeUpdatesAppend(a: seq<seq<byte>>, b: seq<seq<byte>>)
    ensures EncodeUpdates(a + b) == EncodeUpdates(a) + EncodeUpdates(b)
  {
    hide EncodeUpdates, UpdatesSize, Le32;
    EncodeUpdatesUnfold(a);
    if a == [] {
      assert a + b == b;
    } else {
      EncodeUpdatesUnfold(a + b);
      assert (a + b)[1..] == a[1..] + b;
      EncodeUpdatesAppend(a[1..], b);
      Assoc(Le32(|a[0]|) + a[0], EncodeUpdates(a[1..]), EncodeUpdates(b));
    }
  }

  lemma {:induction false} SizeAppend(a: seq<seq<byte>>, b: seq<seq<byte>>)
    ensures UpdatesSize(a + b) == UpdatesSize(a) + UpdatesSize(b)
  {
    EncodeUpdatesAppend(a, b);
    assert |EncodeUpdates(a + b)| == |EncodeUpdates(a)| + |EncodeUpdates(b)|;
  }

  lemma OneUpdate(u: seq<byte>)
    ensures EncodeUpdates([u]) == Le32(|u|) + u
    ensures UpdatesSize([u]) == 4 + |u|
  {
    assert [u][1..] == [];
    assert Le32(|u|) + u + [] == Le32(|u|) + u;
  }

  lemma EncodeUpdatesSnoc(updates: seq<seq<byte>>, i: nat)
    requires i < |updates|
    ensures EncodeUpdates(updates[..i + 1]) == EncodeUpdates(updates[..i]) + Le32(|updates[i]|) + updates[i]
    ensures UpdatesSize(updates[..i + 1]) == UpdatesSize(updates[..i]) + 4 + |updates[i]|
    ensures UpdatesSize(updates[..i + 1]) <= UpdatesSize(updates)
  {
    hide EncodeUpdates, UpdatesSize, Le32;
    var u := updates[i];
    assert updates[..i + 1] == updates[..i] + [u];
    EncodeUpdatesAppend(updates[..i], [u]);
    SizeAppend(updates[..i], [u]);
    OneUpdate(u);
    Assoc(EncodeUpdates(updates[..i]), Le32(|u|), u);
    SizeAppend(updates[..i + 1], updates[i + 1..]);
    assert updates == updates[..i + 1] + updates[i + 1..];
  }

  /** The relay's writer: it sizes a buffer, then fills it at a moving offset. No write
      overruns the buffer and none leaves a gap. */
  method WriteHistory(headerBytes: seq<byte>, updates: seq<seq<byte>>) returns (response: array<byte>)
    ensures fresh(response) && response[..] == EncodeHistory(headerBytes, updates)
  {
    var totalSize := 4 + |headerBytes|;
    var i := 0;
    while i < |updates|
      invariant i <= |updates|
      invariant totalSize == 4 + |headerBytes| + UpdatesSize(updates[..i])
    {
      EncodeUpdatesSnoc(updates, i);
      totalSize := totalSize + 4 + |updates[i]|;
      i := i + 1;
    }
    assert updates[..i] == updates;

    response := new byte[totalSize](_ => 0);
    var offset := 0;
    SetBytes(response, offset, Le32(|headerBytes|));
    offset := offset + 4;
    SetBytes(response, offset, headerBytes);
    offset := offset + |headerBytes|;
    ghost var front := Le32(|headerBytes|) + headerBytes;
    assert response[..offset] == front;
    i := 0;
    while i < |updates|
      invariant i <= |updates|
      invariant offset == |front| + UpdatesSize(updates[..i]) <= response.Length
      invariant response[..offset] == front + EncodeUpdates(updates[..i])
    {
      EncodeUpdatesSnoc(updates, i);
      Regroup(front, EncodeUpdates(updates[..i]), Le32(|updates[i]|), updates[i]);
      WriteOne(response, offset, updates[i]);
      offset := offset + 4 + |updates[i]|;
      i := i + 1;
    }
    assert updates[..i] == updates;
    assert response[..offset] == response[..];
  }

  lemma Regroup(a: seq<byte>, b: seq<byte>, c: seq<byte>, d: seq<byte>)
    ensures (a + b) + c + d == a + (b + c + d)
    ensures a + (b + c + d) == (a + b + c) + d
  {
  }

  method WriteOne(response: array<byte>, offset: nat, data: seq<byte>)
    requires offset + 4 + |data| <= response.Length
    modifies response
    ensures response[..offset + 4 + |data|] == old(response[..offset]) + Le32(|data|) + data
  {
    SetBytes(response, offset, Le32(|data|));
    SetBytes(response, offset + 4, data);
  }

  // ---------------------------------------------------------------- readers

  /** payload.slice(from, to): ends beyond the payload are clamped. */
  function Slice(payload: seq<byte>, from: nat, to: nat): seq<byte> {
    var hi := if to < |payload| then to else |payload|;
    if from <= hi then payload[from..hi] else []
  }

  function ReadUpdates(payload: seq<byte>, offset: nat, count: nat): Option<seq<seq<byte>>>
    decreases count
  {
    if count == 0 then Some([])
    else if |payload| < offset + 4 then None
    else
      var length := FromLe32(payload[offset..offset + 4]);
      var rest := ReadUpdates(payload, offset + 4 + length, count - 1);
      if rest.None? then None else Some([Slice(payload, offset + 4, offset + 4 + length)] + rest.value)
  }

  /** The client's reader of HISTORY. `count` comes out of the parsed header. */
  function ReadHistory(payload: seq<byte>, count: seq<byte> -> nat): Option<(seq<byte>, seq<seq<byte>>)> {
    if |payload| < 4 then None
    else
      var headerLen := FromLe32(payload[..4]);
      var header := Slice(payload, 4, 4 + headerLen);
      var updates := ReadUpdates(payload, 4 + headerLen, count(header));
      if updates.None? then None else Some((header, updates.value))
  }

  method ReadUpdatesLoop(payload: seq<byte>, start: nat, count: nat) returns (updates: Option<seq<seq<byte>>>)
    ensures updates == ReadUpdates(payload, start, count)
  {
    hide FromLe32, Slice;
    var collected: seq<seq<byte>> := [];
    var offset: nat := start;
    var i: nat := 0;
    NothingBefore(ReadUpdates(payload, start, count));
    while i < count
      invariant i <= count
      invariant ReadUpdates(payload, start, count) == After(collected, ReadUpdates(payload, offset, count - i))
    {
      if |payload| < offset + 4 {
        return None;
      }
      var updateLen := FromLe32(payload[offset..offset + 4]);
      offset := offset + 4;
      var update := Slice(payload, offset, offset + updateLen);
      offset := offset + updateLen;
      i := i + 1;
      AfterOneMore(collected, update, ReadUpdates(payload, offset, count - i));
      collected := collected + [update];
    }
    assert collected + [] == collected;
    updates := Some(collected);
  }

  /** The updates collected, and then the rest if there is one. */
  function After<T>(collected: seq<T>, rest: Option<seq<T>>): Option<seq<T>> {
    if rest.None? then None else Some(collected + rest.value)
  }

  lemma NothingBefore<T>(rest: Option<seq<T>>)
    ensures After([], rest) == rest
  {
    if rest.Some? { assert [] + rest.value == rest.value; }
  }

  lemma AfterOneMore<T>(collected: seq<T>, t: T, rest: Option<seq<T>>)
    ensures After(collected, After([t], rest)) == After(collected + [t], rest)
  {
    if rest.Some? { Assoc(collected, [t], rest.value); }
  }

  lemma LengthField(prefix: seq<byte>, len: seq<byte>, u: seq<byte>, rest: seq<byte>)
    requires |len| == 4
    ensures var payload := prefix + len + u + rest;
            && payload[|prefix|..|prefix| + 4] == len
            && Slice(payload, |prefix| + 4, |prefix| + 4 + |u|) == u
  {
  }

  lemma ReadOne(prefix: seq<byte>, u: seq<byte>, rest: seq<byte>, count: nat)
    requires |u| < TWO_TO_THE_32 && count > 0
    ensures var payload := prefix + Le32(|u|) + u + rest;
            var others := ReadUpdates(payload, |prefix| + 4 + |u|, count - 1);
            ReadUpdates(payload, |prefix|, count) == if others.None? then None else Some([u] + others.value)
  {
    LengthField(prefix, Le32(|u|), u, rest);
    assert FromLe32(Le32(|u|)) == |u|;
  }

  lemma ReadOneMore(prefix: seq<byte>, u: seq<byte>, rest: seq<byte>, others: seq<seq<byte>>)
    requires |u| < TWO_TO_THE_32
    requires ReadUpdates(prefix + Le32(|u|) + u + rest, |prefix + Le32(|u|) + u|, |others|) == Some(others)
    ensures ReadUpdates(prefix + (Le32(|u|) + u + rest), |prefix|, |others| + 1) == Some([u] + others)
  {
    hide ReadUpdates, Le32;
    Regroup(prefix, Le32(|u|), u, rest);
    ReadOne(prefix, u, rest, |others| + 1);
  }

  lemma {:induction false} ReadUpdatesRoundTrip(prefix: seq<byte>, updates: seq<seq<byte>>)
    requires forall i :: 0 <= i < |updates| ==> |updates[i]| < TWO_TO_THE_32
    ensures ReadUpdates(prefix + EncodeUpdates(updates), |prefix|, |updates|) == Some(updates)
    decreases |updates|
  {
    if updates != [] {
      hide EncodeUpdates, UpdatesSize, ReadUpdates, Le32;
      var u, others := updates[0], updates[1..];
      EncodeUpdatesUnfold(updates);
      ReadUpdatesRoundTrip(prefix + Le32(|u|) + u, others);
      ReadOneMore(prefix, u, EncodeUpdates(others), others);
      assert [u] + others == updates;
    }
  }

  /** Through writer, outer frame and reader: the client gets back the header and exactly the
      updates, for every list of them, as long as the whole fits the 32-bit length. */
  lemma HistoryRoundTrip(header: seq<byte>, updates: seq<seq<byte>>, count: seq<byte> -> nat)
    requires |EncodeHistory(header, updates)| < TWO_TO_THE_32
    requires count(header) == |updates|
    ensures var received := DecodeMessage(Frame(HISTORY, EncodeHistory(header, updates)));
            && received == Decoded(HISTORY, EncodeHistory(header, updates))
            && ReadHistory(received.payload, count) == Some((header, updates))
  {
    var payload := EncodeHistory(header, updates);
    FrameParts(HISTORY, payload, []);
    assert Frame(HISTORY, payload) + [] == Frame(HISTORY, payload);
    SizesBounded(updates);
    assert payload[..4] == Le32(|header|);
    assert Slice(payload, 4, 4 + |header|) == header;
    ReadUpdatesRoundTrip(Le32(|header|) + header, updates);
  }

  lemma {:induction false} SizesBounded(updates: seq<seq<byte>>)
    ensures forall i :: 0 <= i < |updates| ==> |updates[i]| <= UpdatesSize(updates)
  {
    if updates != [] {
      SizesBounded(updates[1..]);
    }
  }

  // ---------------------------------------------------------------- COMPACT

  function EncodeCompact(header: seq<byte>, snapshot: seq<byte>): seq<byte> {
    Le32(|header|) + header + snapshot
  }

  /** `upToOf` reads the header's JSON: the sequence it names, if it is such a header. */
  function ParseCompact(payload: seq<byte>, upToOf: seq<byte> -> Option<int>): Option<(int, seq<byte>)> {
    if |payload| < 4 then None
    else
      var headerLen := FromLe32(payload[..4]);
      var upTo := upToOf(Slice(payload, 4, 4 + headerLen));
      if upTo.None? then None else Some((upTo.value, Slice(payload, 4 + headerLen, |payload|)))
  }

  lemma CompactRoundTrip(header: seq<byte>, snapshot: seq<byte>, upTo: int, upToOf: seq<byte> -> Option<int>)
    requires |EncodeCompact(header, snapshot)| < TWO_TO_THE_32
    requires upToOf(header) == Some(upTo)
    ensures var received := DecodeMessage(Frame(COMPACT, EncodeCompact(header, snapshot)));
            && received == Decoded(COMPACT, EncodeCompact(header, snapshot))
            && ParseCompact(received.payload, upToOf) == Some((upTo, snapshot))
  {
    var payload := EncodeCompact(header, snapshot);
    FrameParts(COMPACT, payload, []);
    assert Frame(COMPACT, payload) + [] == Frame(COMPACT, payload);
    assert payload[..4] == Le32(|header|);
    assert Slice(payload, 4, 4 + |header|) == header;
    assert Slice(payload, 4 + |header|, |payload|) == snapshot;
  }

  /** Cut after the length field, the payload is this header and this snapshot. The cut lies at the
      announced length, or at the end if that reaches past it. */
  ghost predicate CutsInto(payload: seq<byte>, header: seq<byte>, snapshot: seq<byte>) {
    && |payload| >= 4
    && payload[4..] == header + snapshot
    && |header| <= FromLe32(payload[..4])
    && (snapshot != [] ==> |header| == FromLe32(payload[..4]))
  }

  /** Whatever arrives: a payload is read as (upTo, snapshot) if and only if it cuts into a header
      that names upTo and that snapshot. No byte is lost, and nothing else is refused. */
  lemma CompactReadExactly(payload: seq<byte>, upToOf: seq<byte> -> Option<int>, upTo: int, snapshot: seq<byte>)
    ensures ParseCompact(payload, upToOf) == Some((upTo, snapshot))
            <==> exists header :: CutsInto(payload, header, snapshot) && upToOf(header) == Some(upTo)
  {
    if |payload| >= 4 {
      var headerLen := FromLe32(payload[..4]);
      var header, rest := Slice(payload, 4, 4 + headerLen), Slice(payload, 4 + headerLen, |payload|);
      assert payload[4..] == header + rest;
      assert CutsInto(payload, header, rest);
      forall other | CutsInto(payload, other, snapshot) ensures other == header && snapshot == rest {
        assert |other| == |header| by { assert |other| + |snapshot| == |header| + |rest|; }
        assert other == payload[4..][..|other|] && header == payload[4..][..|header|];
        assert snapshot == payload[4..][|other|..] && rest == payload[4..][|header|..];
      }
    }
  }
}

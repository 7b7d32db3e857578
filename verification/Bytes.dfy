/** Bytes, and the 32-bit little-endian lengths of both wire formats. */
module Bytes {
  newtype byte = x: int | 0 <= x < 256

  const TWO_TO_THE_32: nat := 0x1_0000_0000

  /** The `count` low bytes of n, least significant first. */
  function LeBytes(n: nat, count: nat): (b: seq<byte>)
    ensures |b| == count
  {
    if count == 0 then [] else [(n % 256) as byte] + LeBytes(n / 256, count - 1)
  }

  function FromLeBytes(b: seq<byte>): nat {
    if b == [] then 0 else b[0] as nat + 256 * FromLeBytes(b[1..])
  }

  function Power256(count: nat): (p: nat)
    ensures p > 0
  {
    if count == 0 then 1 else 256 * Power256(count - 1)
  }

  lemma {:induction false} FromLeBytesOfLeBytes(n: nat, count: nat)
    requires n < Power256(count)
    ensures FromLeBytes(LeBytes(n, count)) == n
  {
    if count > 0 {
      FromLeBytesOfLeBytes(n / 256, count - 1);
      assert LeBytes(n, count)[1..] == LeBytes(n / 256, count - 1);
    }
  }

  lemma {:induction false} FromLeBytesBound(b: seq<byte>)
    ensures FromLeBytes(b) < Power256(|b|)
  {
    if b != [] {
      FromLeBytesBound(b[1..]);
    }
  }

  /** setUint32(..., true) and (len as u32).to_le_bytes(): the length is taken modulo 2^32. */
  function Le32(n: nat): (b: seq<byte>)
    ensures |b| == 4
    ensures n < TWO_TO_THE_32 ==> FromLe32(b) == n
  {
    if n < TWO_TO_THE_32 then FromLeBytesOfLeBytes(n, 4); LeBytes(n, 4) else LeBytes(n % TWO_TO_THE_32, 4)
  }

  function FromLe32(b: seq<byte>): (n: nat)
    requires |b| == 4
    ensures n < TWO_TO_THE_32
  {
    FromLeBytesBound(b);
    FromLeBytes(b)
  }

  /** [type: 1 byte][length: 4 bytes][payload]. */
  function Frame(msgType: byte, payload: seq<byte>): (frame: seq<byte>)
    ensures |frame| == 5 + |payload|
  {
    [msgType] + Le32(|payload|) + payload
  }

  lemma FrameParts(msgType: byte, payload: seq<byte>, rest: seq<byte>)
    ensures var b := Frame(msgType, payload) + rest;
            && b[0] == msgType
            && b[1..5] == Le32(|payload|)
            && b[5..5 + |payload|] == payload
            && b[5 + |payload|..] == rest
  {
  }

  /** The four bytes of a length, the lowest first. */
  lemma Le32Bytes(n: nat)
    requires n < TWO_TO_THE_32
    ensures Le32(n)[0] as nat == n % 256 && Le32(n)[1] as nat == n / 256 % 256
    ensures Le32(n)[2] as nat == n / 256 / 256 % 256 && Le32(n)[3] as nat == n / 256 / 256 / 256
  {
    LowestFirst(n, 4);
    LowestFirst(n / 256, 3);
    LowestFirst(n / 256 / 256, 2);
    LowestFirst(n / 256 / 256 / 256, 1);
  }

  lemma LowestFirst(n: nat, count: nat)
    requires count > 0
    ensures LeBytes(n, count)[0] as nat == n % 256 && LeBytes(n, count)[1..] == LeBytes(n / 256, count - 1)
  {
  }

  lemma {:induction false} LeBytesOfFromLeBytes(b: seq<byte>)
    ensures LeBytes(FromLeBytes(b), |b|) == b
  {
    if b != [] {
      LeBytesOfFromLeBytes(b[1..]);
      ByteOnTop(b[0], FromLeBytes(b[1..]), |b| - 1);
      assert b == [b[0]] + b[1..];
    }
  }

  lemma {:induction false} ByteOnTop(low: byte, high: nat, count: nat)
    ensures LeBytes(low as nat + 256 * high, count + 1) == [low] + LeBytes(high, count)
  {
    var n := low as nat + 256 * high;
    LowestFirst(n, count + 1);
    assert n % 256 == low as nat && n / 256 == high;
  }

  /** Every four bytes are the length field of exactly one length. */
  lemma Le32OfFromLe32(b: seq<byte>)
    requires |b| == 4
    ensures Le32(FromLe32(b)) == b
  {
    LeBytesOfFromLeBytes(b);
  }
}

/** URL-safe base64 without padding, as sections 5 and 3.2 of RFC 4648 define it. The decoder is
strict: no padding, and the unused bits of the last character must be zero (section 3.5). */
module Base64 {
  import opened Bytes
  import opened Wrappers

  function ToChar(v: nat): (c: char)
    requires v < 64
    ensures FromChar(c) == Some(v)
  {
    if v < 26 then ('A' as int + v) as char
    else if v < 52 then ('a' as int + v - 26) as char
    else if v < 62 then ('0' as int + v - 52) as char
    else if v == 62 then '-'
    else '_'
  }

  function FromChar(c: char): (v: Option<nat>)
    ensures v.Some? ==> v.value < 64
  {
    if 'A' <= c <= 'Z' then Some(c as int - 'A' as int)
    else if 'a' <= c <= 'z' then Some(c as int - 'a' as int + 26)
    else if '0' <= c <= '9' then Some(c as int - '0' as int + 52)
    else if c == '-' then Some(62)
    else if c == '_' then Some(63)
    else None
  }

  lemma CharOfValue(c: char)
    ensures FromChar(c).Some? ==> ToChar(FromChar(c).value) == c
  {
  }

  /** The n highest of the 6-bit groups of x, which has 6 * n bits. */
  function Chars(x: nat, n: nat): (s: string)
    requires x < Power64(n)
    ensures |s| == n
  {
    if n == 0 then "" else Chars(x / 64, n - 1) + [ToChar(x % 64)]
  }

  function Power64(n: nat): (p: nat)
    ensures p > 0
  {
    if n == 0 then 1 else 64 * Power64(n - 1)
  }

  function Number(s: string): (x: Option<nat>)
    ensures x.Some? ==> x.value < Power64(|s|)
  {
    if s == [] then Some(0)
    else
      var front, last := Number(s[..|s| - 1]), FromChar(s[|s| - 1]);
      if front.None? || last.None? then None else Some(front.value * 64 + last.value)
  }

  lemma {:induction false} NumberOfChars(x: nat, n: nat)
    requires x < Power64(n)
    ensures Number(Chars(x, n)) == Some(x)
  {
    if n > 0 {
      NumberOfChars(x / 64, n - 1);
      assert Chars(x, n)[..n - 1] == Chars(x / 64, n - 1);
    }
  }

  lemma {:induction false} CharsOfNumber(s: string)
    requires Number(s).Some?
    ensures Chars(Number(s).value, |s|) == s
  {
    hide ToChar, FromChar;
    if s != [] {
      CharsOfNumber(s[..|s| - 1]);
      CharOfValue(s[|s| - 1]);
      assert s == s[..|s| - 1] + [s[|s| - 1]];
    }
  }

  lemma Powers()
    ensures Power64(2) == 4096 && Power64(3) == 262144 && Power64(4) == 16777216
  {
    assert Power64(1) == 64;
    assert Power64(2) == 64 * Power64(1);
    assert Power64(3) == 64 * Power64(2);
    assert Power64(4) == 64 * Power64(3);
  }

  function Encode(b: seq<byte>): (s: string)
    decreases |b|
  {
    Powers();
    if b == [] then ""
    else if |b| == 1 then Chars(b[0] as nat * 16, 2)
    else if |b| == 2 then Chars((b[0] as nat * 256 + b[1] as nat) * 4, 3)
    else Chars((b[0] as nat * 256 + b[1] as nat) * 256 + b[2] as nat, 4) + Encode(b[3..])
  }

  function Decode(s: string): (b: Option<seq<byte>>)
    decreases |s|
  {
    Powers();
    if s == [] then Some([])
    else if |s| == 1 then None
    else if |s| == 2 then
      var x := Number(s);
      if x.None? || x.value % 16 != 0 then None else Some([(x.value / 16) as byte])
    else if |s| == 3 then
      var x := Number(s);
      if x.None? || x.value % 4 != 0 then None
      else Some([(x.value / 1024) as byte, (x.value / 4 % 256) as byte])
    else
      var x, rest := Number(s[..4]), Decode(s[4..]);
      if x.None? || rest.None? then None
      else Some([(x.value / 65536) as byte, (x.value / 256 % 256) as byte, (x.value % 256) as byte] + rest.value)
  }

  lemma OneByte(n: byte)
    ensures n as nat * 16 % 16 == 0 && n as nat * 16 / 16 == n as nat
  {
  }

  lemma TwoBytes(m: byte, n: byte)
    ensures var x := (m as nat * 256 + n as nat) * 4;
            x % 4 == 0 && x / 1024 == m as nat && x / 4 % 256 == n as nat
  {
  }

  lemma TwoBytesBack(x: nat)
    requires x % 4 == 0
    ensures (x / 1024 * 256 + x / 4 % 256) * 4 == x
  {
  }

  lemma ThreeBytesBack(x: nat)
    ensures (x / 65536 * 256 + x / 256 % 256) * 256 + x % 256 == x
  {
  }

  lemma ShortEncode(b: seq<byte>)
    requires |b| < 3
    ensures Decode(Encode(b)) == Some(b)
  {
    hide Chars, Number, Power64;
    Powers();
    if |b| == 1 {
      OneByte(b[0]);
      NumberOfChars(b[0] as nat * 16, 2);
      assert b == [b[0]];
    } else if |b| == 2 {
      NumberOfChars((b[0] as nat * 256 + b[1] as nat) * 4, 3);
      TwoBytes(b[0], b[1]);
      assert b == [b[0], b[1]];
    }
  }

  lemma ThreeBytes(l: byte, m: byte, n: byte)
    ensures var x := (l as nat * 256 + m as nat) * 256 + n as nat;
            x / 65536 == l as nat && x / 256 % 256 == m as nat && x % 256 == n as nat
  {
  }

  /** Decoding undoes encoding for every byte string. */
  lemma {:induction false} DecodeEncode(b: seq<byte>)
    ensures Decode(Encode(b)) == Some(b)
  {
    hide Chars, Number, Power64;
    Powers();
    if |b| < 3 {
      ShortEncode(b);
    } else {
      var x := (b[0] as nat * 256 + b[1] as nat) * 256 + b[2] as nat;
      NumberOfChars(x, 4);
      ThreeBytes(b[0], b[1], b[2]);
      DecodeEncode(b[3..]);
      assert Encode(b)[..4] == Chars(x, 4) && Encode(b)[4..] == Encode(b[3..]);
      assert b == [b[0], b[1], b[2]] + b[3..];
    }
  }

  lemma ShortDecode(s: string)
    requires |s| < 4 && Decode(s).Some?
    ensures Encode(Decode(s).value) == s
  {
    hide Chars, Number, Power64;
    Powers();
    if |s| > 0 {
      CharsOfNumber(s);
      if |s| == 3 { TwoBytesBack(Number(s).value); } else { assert Number(s).value / 16 * 16 == Number(s).value; }
    }
  }

  /** Only the encoding of a byte string decodes to it. */
  lemma {:induction false} EncodeDecode(s: string)
    requires Decode(s).Some?
    ensures Encode(Decode(s).value) == s
    decreases |s|
  {
    hide Chars, Number, Power64;
    Powers();
    if |s| < 4 {
      ShortDecode(s);
    } else {
      EncodeDecode(s[4..]);
      CharsOfNumber(s[..4]);
      ThreeBytesBack(Number(s[..4]).value);
      var b := Decode(s).value;
      assert b[3..] == Decode(s[4..]).value;
      assert s == s[..4] + s[4..];
    }
  }

  lemma {:induction false} CharsInAlphabet(x: nat, n: nat)
    requires x < Power64(n)
    ensures forall c :: c in Chars(x, n) ==> FromChar(c).Some?
  {
    if n > 0 { CharsInAlphabet(x / 64, n - 1); }
  }

  /** Every character emitted is a letter, a digit, '-' or '_', so none disturbs a query string. */
  lemma {:induction false} EncodeInAlphabet(b: seq<byte>)
    ensures forall c :: c in Encode(b) ==> FromChar(c).Some?
    ensures '&' !in Encode(b) && '?' !in Encode(b) && '=' !in Encode(b) && '#' !in Encode(b)
    decreases |b|
  {
    Powers();
    if |b| == 1 {
      CharsInAlphabet(b[0] as nat * 16, 2);
    } else if |b| == 2 {
      CharsInAlphabet((b[0] as nat * 256 + b[1] as nat) * 4, 3);
    } else if |b| >= 3 {
      CharsInAlphabet((b[0] as nat * 256 + b[1] as nat) * 256 + b[2] as nat, 4);
      EncodeInAlphabet(b[3..]);
    }
  }

  /** The alphabet of table 2 of RFC 4648: A to Z, a to z, 0 to 9, minus and underscore, each
      following the one before. */
  lemma AlphabetExactly(v: nat)
    requires v < 63
    ensures ToChar(0) == 'A' && ToChar(25) == 'Z' && ToChar(26) == 'a' && ToChar(51) == 'z'
    ensures ToChar(52) == '0' && ToChar(61) == '9' && ToChar(62) == '-' && ToChar(63) == '_'
    ensures v !in {25, 51, 61, 62} ==> ToChar(v + 1) as int == ToChar(v) as int + 1
  {
  }

  /** Three bytes are four characters, the high bits first. */
  lemma GroupsOfThree(l: byte, m: byte, n: byte)
    ensures Encode([l, m, n])
            == [ToChar(l as nat / 4), ToChar(l as nat % 4 * 16 + m as nat / 16),
                ToChar(m as nat % 16 * 4 + n as nat / 64), ToChar(n as nat % 64)]
  {
    hide Chars, Power64, ToChar;
    Powers();
    ThreeAsFour(l, m, n);
    var x := (l as nat * 256 + m as nat) * 256 + n as nat;
    FourChars(x);
    assert [l, m, n][3..] == [];
    assert Encode([l, m, n]) == Chars(x, 4) + Encode([]);
  }

  /** One byte left over is two characters, and two are three; the last character ends in zero bits. */
  lemma LeftOver(l: byte, m: byte)
    ensures Encode([l]) == [ToChar(l as nat / 4), ToChar(l as nat % 4 * 16)]
    ensures Encode([l, m]) == [ToChar(l as nat / 4), ToChar(l as nat % 4 * 16 + m as nat / 16),
                               ToChar(m as nat % 16 * 4)]
  {
    hide Chars, Power64, ToChar;
    Powers();
    TwoAsThree(l, m);
    TwoChars(l as nat * 16);
    ThreeChars((l as nat * 256 + m as nat) * 4);
  }

  lemma TwoAsThree(l: byte, m: byte)
    ensures l as nat * 16 / 64 == l as nat / 4 && l as nat * 16 % 64 == l as nat % 4 * 16
    ensures var y := (l as nat * 256 + m as nat) * 4;
            && y / 64 / 64 == l as nat / 4 && y / 64 % 64 == l as nat % 4 * 16 + m as nat / 16
            && y % 64 == m as nat % 16 * 4
  {
  }

  /** "f", "fo" and "foo", of section 10 of RFC 4648. */
  lemma TestVectors()
    ensures Encode([0x66]) == "Zg" && Encode([0x66, 0x6f]) == "Zm8" && Encode([0x66, 0x6f, 0x6f]) == "Zm9v"
  {
    hide Encode;
    GroupsOfThree(0x66, 0x6f, 0x6f);
    LeftOver(0x66, 0x6f);
  }

  lemma ThreeAsFour(l: byte, m: byte, n: byte)
    ensures var x := (l as nat * 256 + m as nat) * 256 + n as nat;
            && x / 64 / 64 / 64 == l as nat / 4 && x / 64 / 64 % 64 == l as nat % 4 * 16 + m as nat / 16
            && x / 64 % 64 == m as nat % 16 * 4 + n as nat / 64 && x % 64 == n as nat % 64
  {
  }

  lemma {:induction false} TwoChars(x: nat)
    requires x < 4096
    ensures Power64(2) == 4096
    ensures Chars(x, 2) == [ToChar(x / 64), ToChar(x % 64)]
  {
    Powers();
    hide ToChar;
    assert Chars(x / 64 / 64, 0) == "";
    assert Chars(x / 64, 1) == [ToChar(x / 64)];
  }

  lemma {:induction false} ThreeChars(y: nat)
    requires y < 262144
    ensures Power64(3) == 262144
    ensures Chars(y, 3) == [ToChar(y / 64 / 64), ToChar(y / 64 % 64), ToChar(y % 64)]
  {
    Powers();
    hide ToChar;
    TwoChars(y / 64);
  }

  lemma {:induction false} FourChars(x: nat)
    requires x < 16777216
    ensures Power64(4) == 16777216
    ensures Chars(x, 4) == [ToChar(x / 64 / 64 / 64), ToChar(x / 64 / 64 % 64), ToChar(x / 64 % 64), ToChar(x % 64)]
  {
    Powers();
    hide ToChar;
    ThreeChars(x / 64);
  }
}

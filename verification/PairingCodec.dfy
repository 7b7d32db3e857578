/** The texts that pair two devices: the URL of a QR code (src-tauri/src/network/pairing.rs) and
the code typed by hand (src-tauri/src/network/commands.rs). */
module PairingCodec {
  import opened Base64
  import opened Bytes
  import opened Strings
  import opened Wrappers

  const PAIRING_VERSION := 1
  const PAIRING_SCHEME := "skelenote://pair"

  datatype PairingPayload =
    PairingPayload(v: nat, ips: seq<string>, port: nat, fp: string, id: string, name: string)

  datatype PairingError = InvalidPayload | Base64Decode | Json

  // ---------------------------------------------------------------- the URL

  function ToUrl(p: PairingPayload, toJson: PairingPayload -> seq<byte>): string {
    PAIRING_SCHEME + "?v=" + Decimal(PAIRING_VERSION) + "&d=" + Encode(toJson(p))
  }

  /** find(c): everything after the first c. */
  function AfterFirst(s: string, c: char): (rest: Option<string>)
    decreases |s|
  {
    if s == [] then None else if s[0] == c then Some(s[1..]) else AfterFirst(s[1..], c)
  }

  /** The first parameter that starts with the prefix. */
  function FindParam(params: seq<string>, prefix: string): (r: Option<string>)
    ensures r.Some? ==> prefix <= r.value
  {
    if params == [] then None
    else if prefix <= params[0] then Some(params[0])
    else FindParam(params[1..], prefix)
  }

  /** `fromJson` reads bytes as UTF-8 and as JSON, and says which of the two failed. */
  function FromUrl(url: string, fromJson: seq<byte> -> Result<PairingPayload, PairingError>)
    : Result<PairingPayload, PairingError>
  {
    if !(PAIRING_SCHEME <= url) then Err(InvalidPayload)
    else
      var query := AfterFirst(url, '?');
      if query.None? then Err(InvalidPayload)
      else
        var param := FindParam(Split(query.value, '&'), "d=");
        if param.None? then Err(InvalidPayload) else ReadData(param.value[2..], fromJson)
  }

  function ReadData(data: string, fromJson: seq<byte> -> Result<PairingPayload, PairingError>)
    : Result<PairingPayload, PairingError>
  {
    var json := Decode(data);
    if json.None? then Err(Base64Decode)
    else
      var p := fromJson(json.value);
      if p.Ok? && p.value.v != PAIRING_VERSION then Err(InvalidPayload) else p
  }

  lemma {:induction false} AfterFirstSkips(before: string, c: char, rest: string)
    requires c !in before
    ensures AfterFirst(before + [c] + rest, c) == Some(rest)
  {
    var s := before + [c] + rest;
    if before == [] {
      assert s[1..] == rest;
    } else {
      assert s[1..] == before[1..] + [c] + rest;
      AfterFirstSkips(before[1..], c, rest);
    }
  }

  /** The query of a pairing URL has the two parameters that were put in. */
  lemma QueryOfUrl(p: PairingPayload, toJson: PairingPayload -> seq<byte>)
    ensures PAIRING_SCHEME <= ToUrl(p, toJson)
    ensures var query := AfterFirst(ToUrl(p, toJson), '?');
            query.Some? && Split(query.value, '&') == ["v=1", "d=" + Encode(toJson(p))]
  {
    var data := "d=" + Encode(toJson(p));
    assert Decimal(PAIRING_VERSION) == "1";
    assert ToUrl(p, toJson) == PAIRING_SCHEME + ['?'] + ("v=1" + ['&'] + data);
    AfterFirstSkips(PAIRING_SCHEME, '?', "v=1" + ['&'] + data);
    SplitFirst("v=1", '&', data);
    EncodeInAlphabet(toJson(p));
    SplitNone(data, '&');
  }

  lemma UrlText(p: PairingPayload, toJson: PairingPayload -> seq<byte>)
    ensures ToUrl(p, toJson) == "skelenote://pair?v=1&d=" + Encode(toJson(p))
  {
    assert Decimal(PAIRING_VERSION) == "1";
    assert PAIRING_SCHEME + "?v=" + "1" + "&d=" == "skelenote://pair?v=1&d=";
  }

  /** Reading the URL of a payload gives the payload back if and only if it is of version 1. */
  lemma RoundTripExactly(
    p: PairingPayload, toJson: PairingPayload -> seq<byte>, fromJson: seq<byte> -> Result<PairingPayload, PairingError>)
    requires fromJson(toJson(p)) == Ok(p)
    ensures FromUrl(ToUrl(p, toJson), fromJson) == Ok(p) <==> p.v == 1
    ensures ToUrl(p, toJson) == "skelenote://pair?v=1&d=" + Encode(toJson(p))
  {
    UrlText(p, toJson);
    QueryOfUrl(p, toJson);
    hide Encode, Decode, Split, AfterFirst, ToUrl;
    var data := "d=" + Encode(toJson(p));
    assert "d="[0] != "v=1"[0];
    assert FindParam(["v=1", data], "d=") == Some(data) by {
      assert ["v=1", data][1..] == [data];
    }
    assert data[2..] == Encode(toJson(p));
    DecodeEncode(toJson(p));
  }

  lemma {:induction false} FindParamFirst(params: seq<string>, prefix: string, param: string)
    ensures FindParam(params, prefix) == Some(param) <==>
              exists i :: 0 <= i < |params| && params[i] == param && prefix <= param
                       && forall j :: 0 <= j < i ==> !(prefix <= params[j])
  {
    if params != [] && !(prefix <= params[0]) {
      FindParamFirst(params[1..], prefix, param);
      if FindParam(params, prefix) == Some(param) {
        var i :| 0 <= i < |params[1..]| && params[1..][i] == param && prefix <= param
                 && forall j :: 0 <= j < i ==> !(prefix <= params[1..][j]);
        assert params[i + 1] == param;
        assert forall j :: 0 < j < i + 1 ==> params[j] == params[1..][j - 1];
      }
      if i :| 0 <= i < |params| && params[i] == param && prefix <= param
              && forall j :: 0 <= j < i ==> !(prefix <= params[j])
      {
        assert params[1..][i - 1] == param;
        assert forall j :: 0 <= j < i - 1 ==> params[1..][j] == params[j + 1];
      }
    }
  }

  /** After the scheme and the first question mark, parameter i is the first to start with d=, and
      data is what follows. */
  predicate DataAt(url: string, i: nat, data: string) {
    && "skelenote://pair" <= url
    && AfterFirst(url, '?').Some?
    && var params := Split(AfterFirst(url, '?').value, '&');
       && i < |params|
       && params[i] == "d=" + data
       && forall j :: 0 <= j < i ==> !("d=" <= params[j])
  }

  /** The first data parameter is the encoding of a JSON text of p, and p is of version 1. */
  ghost predicate Carries(url: string, p: PairingPayload,
                          fromJson: seq<byte> -> Result<PairingPayload, PairingError>, i: nat, json: seq<byte>)
  {
    DataAt(url, i, Encode(json)) && fromJson(json) == Ok(p) && p.v == 1
  }

  /** What FromUrl makes of the data it finds, and of a URL without any. */
  lemma ReadFrom(url: string, fromJson: seq<byte> -> Result<PairingPayload, PairingError>)
    ensures forall i: nat, data :: DataAt(url, i, data) ==>
              FromUrl(url, fromJson) == ReadData(data, fromJson)
    ensures (forall i: nat, data :: !DataAt(url, i, data)) ==> FromUrl(url, fromJson) == Err(InvalidPayload)
  {
    hide ReadData, Split, AfterFirst, FindParam;
    if "skelenote://pair" <= url && AfterFirst(url, '?').Some? {
      var params := Split(AfterFirst(url, '?').value, '&');
      forall i: nat, data | DataAt(url, i, data) ensures FindParam(params, "d=") == Some("d=" + data) {
        FindParamFirst(params, "d=", "d=" + data);
      }
      assert forall data :: ("d=" + data)[2..] == data;
      var found := FindParam(params, "d=");
      if found.Some? {
        FindParamFirst(params, "d=", found.value);
        var i :| 0 <= i < |params| && params[i] == found.value && forall j :: 0 <= j < i ==> !("d=" <= params[j]);
        assert found.value == "d=" + found.value[2..];
        assert DataAt(url, i, found.value[2..]);
      }
    }
  }

  /** The URLs that are read as payload p are those that carry it. The v parameter is never
      looked at. */
  lemma AcceptedExactly(url: string, p: PairingPayload, fromJson: seq<byte> -> Result<PairingPayload, PairingError>)
    ensures FromUrl(url, fromJson) == Ok(p) <==> exists i: nat, json :: Carries(url, p, fromJson, i, json)
  {
    hide FromUrl, DataAt;
    ReadFrom(url, fromJson);
    if FromUrl(url, fromJson) == Ok(p) {
      var i: nat, data :| DataAt(url, i, data);
      EncodeDecode(data);
      assert Carries(url, p, fromJson, i, Decode(data).value);
    }
    if i: nat, json :| Carries(url, p, fromJson, i, json) { DecodeEncode(json); }
  }

  /** Why data are refused: they encode nothing, or what they encode is refused by the reader, or is
      of another version. */
  ghost predicate DataRefused(data: string, fromJson: seq<byte> -> Result<PairingPayload, PairingError>,
                              e: PairingError)
  {
    || (e == Base64Decode && forall json :: Encode(json) != data)
    || (exists json :: Encode(json) == data
                       && (fromJson(json) == Err(e)
                           || (e == InvalidPayload && fromJson(json).Ok? && fromJson(json).value.v != 1)))
  }

  lemma DataRefusedExactly(data: string, fromJson: seq<byte> -> Result<PairingPayload, PairingError>, e: PairingError)
    ensures ReadData(data, fromJson) == Err(e) <==> DataRefused(data, fromJson, e)
  {
    hide Encode, Decode;
    forall json | Encode(json) == data ensures Decode(data) == Some(json) { DecodeEncode(json); }
    if Decode(data).Some? {
      EncodeDecode(data);
      assert Encode(Decode(data).value) == data;
    }
  }

  /** The other URLs are refused: with the error of the first data parameter, or as invalid if
      there is none behind the scheme. */
  lemma RefusedExactly(url: string, fromJson: seq<byte> -> Result<PairingPayload, PairingError>, e: PairingError)
    ensures FromUrl(url, fromJson) == Err(e)
            <==> || (exists i: nat, data :: DataAt(url, i, data) && DataRefused(data, fromJson, e))
                 || (e == InvalidPayload && forall i: nat, data :: !DataAt(url, i, data))
  {
    hide FromUrl, DataAt, ReadData, DataRefused;
    ReadFrom(url, fromJson);
    forall i: nat, data | DataAt(url, i, data)
      ensures FromUrl(url, fromJson) == Err(e) <==> DataRefused(data, fromJson, e)
    {
      DataRefusedExactly(data, fromJson, e);
    }
  }

  // ---------------------------------------------------------------- the manual code

  function Upper(c: char): char {
    if 'a' <= c <= 'z' then (c as int - 'a' as int + 'A' as int) as char else c
  }

  function Lower(c: char): char {
    if 'A' <= c <= 'Z' then (c as int - 'A' as int + 'a' as int) as char else c
  }

  function Map(f: char -> char, s: string): (r: string)
    ensures |r| == |s| && forall i :: 0 <= i < |s| ==> r[i] == f(s[i])
  {
    if s == [] then [] else [f(s[0])] + Map(f, s[1..])
  }

  /** The groups of four that chunks(4) gives; the last may be shorter. */
  function Chunks(s: string): (r: seq<string>)
    ensures r == [] <==> s == []
  {
    if s == [] then [] else if |s| <= 4 then [s] else [s[..4]] + Chunks(s[4..])
  }

  function Join(parts: seq<string>): string {
    if parts == [] then ""
    else if |parts| == 1 then parts[0]
    else parts[0] + "-" + Join(parts[1..])
  }

  /** How a fingerprint is shown: upper-case, in groups of four. */
  function FormatCode(fingerprint: string): string {
    Join(Chunks(Map(Upper, fingerprint)))
  }

  /** replace(c, ""). */
  function Without(s: string, c: char): (r: string)
    ensures |r| <= |s| && (|r| == |s| <==> c !in s)
  {
    if s == [] then [] else (if s[0] == c then [] else [s[0]]) + Without(s[1..], c)
  }

  /** What is compared with the own fingerprint after a code was typed. */
  function CleanCode(code: string): string {
    Map(Lower, Without(Without(code, '-'), ' '))
  }

  /** s with a dash in front of every fourth character but the first. */
  ghost predicate Grouped(s: string, shown: string) {
    && |shown| == (if s == [] then 0 else |s| + (|s| - 1) / 4)
    && (forall i :: 0 <= i < |s| ==> shown[i + i / 4] == s[i])
    && (forall k :: 0 <= k && 5 * k + 4 < |shown| ==> shown[5 * k + 4] == '-')
  }

  lemma GroupedStep(s: string, tail: string)
    requires |s| > 4 && Grouped(s[4..], tail)
    ensures Grouped(s, s[..4] + "-" + tail)
  {
    var all := s[..4] + "-" + tail;
    assert forall i :: 0 <= i < |tail| ==> all[5 + i] == tail[i];
    forall i | 4 <= i < |s| ensures all[i + i / 4] == s[i] {
      var j := i - 4;
      assert tail[j + j / 4] == s[4..][j];
      assert i + i / 4 == 5 + (j + j / 4);
    }
    forall k | 0 <= k && 5 * k + 4 < |all| ensures all[5 * k + 4] == '-' {
      if k > 0 {
        var l := k - 1;
        assert tail[5 * l + 4] == '-';
        assert 5 * k + 4 == 5 + (5 * l + 4);
      }
    }
  }

  lemma JoinUnfold(s: string)
    ensures Join(Chunks(s)) == if |s| <= 4 then s else s[..4] + "-" + Join(Chunks(s[4..]))
  {
    if |s| > 4 { assert Chunks(s)[1..] == Chunks(s[4..]); }
  }

  lemma {:induction false} JoinedShape(s: string)
    ensures Grouped(s, Join(Chunks(s)))
    decreases |s|
  {
    hide Join, Chunks;
    JoinUnfold(s);
    if |s| > 4 {
      JoinedShape(s[4..]);
      GroupedStep(s, Join(Chunks(s[4..])));
    }
  }

  /** No lower-case letter, and c itself or the capital at its place in the alphabet. */
  predicate IsUpperOf(shown: char, c: char) {
    && !('a' <= shown <= 'z')
    && (shown == c || ('A' <= shown <= 'Z' && shown as int - 'A' as int == c as int - 'a' as int))
  }

  lemma UpperIs(c: char)
    ensures IsUpperOf(Upper(c), c)
  {
  }

  lemma ShownGrouped(fingerprint: string)
    ensures Grouped(Map(Upper, fingerprint), FormatCode(fingerprint))
  {
    JoinedShape(Map(Upper, fingerprint));
  }

  /** The shown code: character i of the fingerprint stands at i + i / 4, and every fifth
      character is a dash. */
  lemma DisplayShape(fingerprint: string)
    ensures |FormatCode(fingerprint)| == if fingerprint == [] then 0 else |fingerprint| + (|fingerprint| - 1) / 4
    ensures forall i :: 0 <= i < |fingerprint| ==> IsUpperOf(FormatCode(fingerprint)[i + i / 4], fingerprint[i])
    ensures forall k :: 0 <= k && 5 * k + 4 < |FormatCode(fingerprint)| ==> FormatCode(fingerprint)[5 * k + 4] == '-'
  {
    hide FormatCode, Join, Chunks, Map, Upper;
    var shown := FormatCode(fingerprint);
    ShownGrouped(fingerprint);
    forall i | 0 <= i < |fingerprint|
      ensures shown[i + i / 4] == Upper(fingerprint[i])
    {
      assert shown[i + i / 4] == Map(Upper, fingerprint)[i];
    }
    forall i | 0 <= i < |fingerprint| ensures IsUpperOf(shown[i + i / 4], fingerprint[i]) {
      UpperIs(fingerprint[i]);
    }
  }

  lemma {:induction false} WithoutConcat(a: string, b: string, c: char)
    ensures Without(a + b, c) == Without(a, c) + Without(b, c)
  {
    if a == [] {
      assert a + b == b;
    } else {
      assert (a + b)[1..] == a[1..] + b;
      WithoutConcat(a[1..], b, c);
    }
  }

  lemma DashGoes()
    ensures Without("-", '-') == ""
  {
  }

  lemma {:induction false} WithoutJoined(s: string)
    ensures Without(Join(Chunks(s)), '-') == Without(s, '-')
    decreases |s|
  {
    hide Join, Chunks;
    JoinUnfold(s);
    if |s| > 4 {
      WithoutJoined(s[4..]);
      DashGoes();
      WithoutConcat(s[..4] + "-", Join(Chunks(s[4..])), '-');
      WithoutConcat(s[..4], "-", '-');
      WithoutConcat(s[..4], s[4..], '-');
      assert s == s[..4] + s[4..];
    }
  }

  lemma {:induction false} WithoutUpper(s: string, c: char)
    requires c == '-' || c == ' '
    ensures Without(Map(Upper, s), c) == Map(Upper, Without(s, c))
  {
    if s != [] {
      WithoutUpper(s[1..], c);
      assert Map(Upper, s)[1..] == Map(Upper, s[1..]);
    }
  }

  lemma CleanOfFormat(fingerprint: string)
    ensures CleanCode(FormatCode(fingerprint)) == Map(Lower, Without(Without(fingerprint, '-'), ' '))
  {
    hide Without, Map, Join, Chunks;
    var bare := Without(Without(fingerprint, '-'), ' ');
    WithoutJoined(Map(Upper, fingerprint));
    WithoutUpper(fingerprint, '-');
    WithoutUpper(Without(fingerprint, '-'), ' ');
    LowerOfUpper(bare);
  }

  lemma LowerOfUpper(s: string)
    ensures Map(Lower, Map(Upper, s)) == Map(Lower, s)
  {
    hide Map;
  }

  /** Typing the shown code gives the fingerprint back if and only if the fingerprint has no dash,
      no space and no upper-case letter, as every lower-case hex string has. */
  lemma CleanUndoesFormatExactly(fingerprint: string)
    ensures CleanCode(FormatCode(fingerprint)) == fingerprint <==>
              '-' !in fingerprint && ' ' !in fingerprint && forall c :: c in fingerprint ==> !('A' <= c <= 'Z')
  {
    hide CleanCode, FormatCode, Without, Map;
    CleanOfFormat(fingerprint);
    WithoutNone(fingerprint, '-');
    WithoutNone(Without(fingerprint, '-'), ' ');
    var clean := CleanCode(FormatCode(fingerprint));
    if '-' !in fingerprint && ' ' !in fingerprint {
      assert forall i :: 0 <= i < |fingerprint| ==> clean[i] == Lower(fingerprint[i]);
      if forall c :: c in fingerprint ==> !('A' <= c <= 'Z') {
        forall i | 0 <= i < |fingerprint| ensures clean[i] == fingerprint[i] {
          assert fingerprint[i] in fingerprint;
        }
      }
      if clean == fingerprint {
        forall c | c in fingerprint ensures !('A' <= c <= 'Z') {
          var i :| 0 <= i < |fingerprint| && fingerprint[i] == c;
        }
      }
    } else {
      assert |clean| < |fingerprint|;
    }
  }

  lemma {:induction false} WithoutNone(s: string, c: char)
    ensures c !in s ==> Without(s, c) == s
  {
    if s != [] { WithoutNone(s[1..], c); }
  }
}

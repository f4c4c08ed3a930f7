/** The TDS error packet the proxy answers with (proxy/src/mssql.rs): an ERROR token and a DONE token, sections
    2.2.7.10 and 2.2.7.6 of [MS-TDS]. */
module TdsErrors {
  import opened Options
  import opened Bytes
  import opened Texts
  import opened Streams
  import opened TdsPackets

  const SERVER_NAME: seq<Unit16> := [103, 97, 110, 106, 105, 45, 68, 65, 67]  // "ganji-DAC"

  /** The largest message, in code units, whose packet length still fits 16 bits. */
  const MAX_MESSAGE := 32739

  // ---------- building ----------

  /** Number 18456, state 1, severity 14, message, server, no procedure, line 1. Lengths are cut to their
      fields. */
  function ErrorBody(m: seq<Unit16>): (b: Bytes)
    ensures |b| == 32 + 2 * |m|
  {
    PutU32Le(18456) + [1, 14] + PutU16Le(|m| % 0x1_0000) + EncodeUnits(m) + AfterMessage()
  }

  function AfterMessage(): (b: Bytes)
    ensures |b| == 24
  {
    [|SERVER_NAME| % 256] + EncodeUnits(SERVER_NAME) + [0] + PutU32Le(1)
  }

  const DONE_TOKEN: Bytes := [0xFD, 0x02, 0x00, 0x00, 0x00, 0, 0, 0, 0, 0, 0, 0, 0]

  function ErrorTokens(m: seq<Unit16>): (b: Bytes)
    ensures |b| == 48 + 2 * |m|
  {
    [0xAA] + PutU16Le((32 + 2 * |m|) % 0x1_0000) + ErrorBody(m) + DONE_TOKEN
  }

  function ErrorHeader(length: nat): (h: Bytes)
    ensures |h| == 8 && PacketLength(h) == length % 0x1_0000 && IsLast(h)
  {
    var h := [0x04, 0x01] + PutU16Be(length % 0x1_0000) + [0, 0, 1, 0];
    assert h[2..4] == PutU16Be(length % 0x1_0000);
    h
  }

  function ErrorPacket(m: seq<Unit16>): (p: Bytes)
    ensures |p| == 56 + 2 * |m|
  {
    ErrorHeader(56 + 2 * |m|) + ErrorTokens(m)
  }

  method PutUnits(buffer: Bytes, units: seq<Unit16>) returns (out: Bytes)
    ensures out == buffer + EncodeUnits(units)
  {
    out := buffer;
    for i := 0 to |units|
      invariant out + EncodeUnits(units[i..]) == buffer + EncodeUnits(units)
    {
      assert EncodeUnits(units[i..]) == PutU16Le(units[i]) + EncodeUnits(units[i..][1..]);
      assert units[i..][1..] == units[i + 1..];
      Assoc(out, PutU16Le(units[i]), EncodeUnits(units[i + 1..]));
      out := out + PutU16Le(units[i]);
    }
    assert out + EncodeUnits([]) == out;
  }

  method BuildTdsErrorPacket(t: Codec, message: string) returns (packet: Bytes)
    ensures packet == ErrorPacket(t.encode16(message))
  {
    hide EncodeUnits, PutU16Le, PutU16Be, PutU32Le, Zeros;
    var m := t.encode16(message);
    var body := PutU32Le(18456) + [1] + [14];
    ghost var start := body;
    body := body + PutU16Le(|m| % 0x1_0000);
    body := PutUnits(body, m);
    body := body + [|SERVER_NAME| % 256];
    body := PutUnits(body, SERVER_NAME);
    body := body + [0];
    body := body + PutU32Le(1);
    assert body == ErrorBody(m) by {
      assert start == PutU32Le(18456) + [1, 14];
    }
    hide ErrorBody;
    var tokens := [0xAA] + PutU16Le(|body| % 0x1_0000) + body;
    tokens := tokens + [0xFD] + [0x02, 0x00] + [0x00, 0x00] + Zeros(8);
    assert tokens == ErrorTokens(m) by {
      assert [0xFD] + [0x02, 0x00] + [0x00, 0x00] + Zeros(8) == DONE_TOKEN;
    }
    hide ErrorTokens;
    packet := [0x04, 0x01] + PutU16Be((HEADER_LEN + |tokens|) % 0x1_0000) + [0, 0] + [1] + [0] + tokens;
    assert packet == ErrorPacket(m);
  }

  // ---------- reading it back ----------

  /** A single packet is read back whole exactly when its own length field says so. */
  lemma SinglePacketReads(header: Bytes, tokens: Bytes, more: Bytes)
    requires |header| == 8 && IsLast(header)
    ensures ReadMessage(header + tokens + more) == Got(header + tokens, 8 + |tokens|)
            <==> PacketLength(header) == 8 + |tokens|
  {
    var s := header + tokens + more;
    var len := PacketLength(header);
    assert s == header + (tokens + more);
    Seam(header, tokens + more);
    if len == 8 + |tokens| {
      assert s[8..len] == tokens;
    }
    if 8 <= len <= |s| {
      assert |s| - |s[len..]| == len;
    }
  }

  /** The exact bound: the packet, with anything behind it, is read back as itself if and only if the message
      has at most 32739 code units. Beyond that the 16-bit length field wraps. */
  lemma ErrorPacketReadsBackIff(m: seq<Unit16>, more: Bytes)
    ensures ReadMessage(ErrorPacket(m) + more) == Got(ErrorPacket(m), |ErrorPacket(m)|) <==> |m| <= MAX_MESSAGE
  {
    hide ErrorTokens, ErrorHeader, ReadMessage;
    SinglePacketReads(ErrorHeader(56 + 2 * |m|), ErrorTokens(m), more);
  }

  datatype ServerError = ServerError(number: nat, state: byte, severity: byte, message: seq<Unit16>,
                                     server: seq<Unit16>, procedure: seq<Unit16>, line: nat)

  /** Server name, procedure name and line number, as a client reads them. */
  function DecodeAfterMessage(b: Bytes): Option<(seq<Unit16>, seq<Unit16>, nat)> {
    if |b| < 1 || |b| < 2 + 2 * (b[0] as nat) then None
    else
      var k := b[0] as nat;
      var rest := b[1 + 2 * k..];
      var j := rest[0] as nat;
      if |rest| != 5 + 2 * j then None
      else Some((Units(b[1..1 + 2 * k]), Units(rest[1..1 + 2 * j]), U32Le(rest[1 + 2 * j..])))
  }

  /** A client's reading of the body of an ERROR token, field by field. */
  function DecodeBody(b: Bytes): Option<ServerError> {
    if |b| < 8 || |b| < 8 + 2 * U16Le(b[6..8]) then None
    else
      var n := U16Le(b[6..8]);
      match DecodeAfterMessage(b[8 + 2 * n..])
      case None => None
      case Some((server, procedure, line)) =>
        Some(ServerError(U32Le(b[..4]), b[4], b[5], Units(b[8..8 + 2 * n]), server, procedure, line))
  }

  /** A client's reading of a response packet: header, ERROR token with its length, DONE token with the error
      bit. */
  function DecodeError(packet: Bytes): Option<ServerError> {
    if |packet| < 11 || packet[0] != 0x04 || PacketLength(packet[..8]) != |packet| || packet[8] != 0xAA then None
    else
      var len := U16Le(packet[9..11]);
      if |packet| != 11 + len + 13 then None
      else
        var done := packet[11 + len..];
        if done[0] != 0xFD || U16Le(done[1..3]) != 0x0002 then None else DecodeBody(packet[11..11 + len])
  }

  lemma AfterMessageDecodes()
    ensures DecodeAfterMessage(AfterMessage()) == Some((SERVER_NAME, [], 1))
  {
    hide Units, EncodeUnits, PutU32Le;
    var b, name := AfterMessage(), EncodeUnits(SERVER_NAME);
    assert b[0] == 9 && b[1..19] == name;
    var rest := b[19..];
    assert rest == [0] + PutU32Le(1);
    assert rest[1..] == PutU32Le(1);
    assert rest[1..1] == [];
    UnitsReadBack(SERVER_NAME);
    UnitsOfNothing();
  }

  lemma UnitsOfNothing()
    ensures Units([]) == []
  {
  }

  lemma BodyDecodes(m: seq<Unit16>)
    requires |m| <= MAX_MESSAGE
    ensures DecodeBody(ErrorBody(m)) == Some(ServerError(18456, 1, 14, m, SERVER_NAME, [], 1))
  {
    hide Units, EncodeUnits, PutU32Le, PutU16Le, U32Le, U16Le, AfterMessage, DecodeAfterMessage;
    var b, text := ErrorBody(m), EncodeUnits(m);
    var fixed := PutU32Le(18456) + [1, 14] + PutU16Le(|m|);
    assert b == fixed + (text + AfterMessage());
    FixedPart(b, fixed, |m|, text + AfterMessage());
    assert b[8..8 + 2 * |m|] == text;
    assert b[8 + 2 * |m|..] == AfterMessage();
    UnitsReadBack(m);
    AfterMessageDecodes();
  }

  lemma FixedPart(b: Bytes, fixed: Bytes, n: nat, rest: Bytes)
    requires n < 0x1_0000 && fixed == PutU32Le(18456) + [1, 14] + PutU16Le(n) && b == fixed + rest
    ensures U32Le(b[..4]) == 18456 && b[4] == 1 && b[5] == 14 && U16Le(b[6..8]) == n
  {
    hide PutU32Le, PutU16Le;
    assert b[..4] == PutU32Le(18456);
    assert b[6..8] == PutU16Le(n);
  }

  function AsciiUnits(s: string): seq<Unit16>
    requires forall i | 0 <= i < |s| :: s[i] as int < 128
  {
    seq(|s|, i requires 0 <= i < |s| => s[i] as int)
  }

  /** A client that decodes the packet recovers the message, the server name and every number; no length field
      wraps. */
  lemma ErrorPacketDecodes(m: seq<Unit16>)
    requires |m| <= MAX_MESSAGE
    ensures DecodeError(ErrorPacket(m)) == Some(ServerError(18456, 1, 14, m, AsciiUnits("ganji-DAC"), [], 1))
  {
    hide ErrorBody, DecodeBody, PutU16Le, PutU16Be;
    var p, header, body := ErrorPacket(m), ErrorHeader(56 + 2 * |m|), ErrorBody(m);
    var len := 32 + 2 * |m|;
    assert p == header + ([0xAA] + PutU16Le(len) + body + DONE_TOKEN);
    assert p[..8] == header && p[0] == 0x04 && p[8] == 0xAA;
    assert p[9..11] == PutU16Le(len);
    assert p[11..11 + len] == body;
    var done := p[11 + len..];
    assert done == DONE_TOKEN;
    assert done[1..3] == [0x02, 0x00];
    BodyDecodes(m);
    assert AsciiUnits("ganji-DAC") == SERVER_NAME;
  }
}

/** The MySQL handshake as the proxy reads it, and its ERR packet (proxy/src/mysql.rs). */
module MySql {
  import opened Options
  import opened Bytes
  import opened Texts
  import opened Streams

  // ---------- packets ----------

  /** `read_mysql_packet` on the bytes to come: a 3-byte length, a sequence number, the payload. */
  function ReadPacket(s: Bytes): (r: Read<Bytes>)
    ensures Sound(r, s)
  {
    if |s| < 4 || 4 + U24Le(s[..3]) > |s| then Stop else Got(s[..4 + U24Le(s[..3])], 4 + U24Le(s[..3]))
  }

  method ReadMySqlPacket(reader: Reader) returns (r: Option<Bytes>)
    modifies reader
    ensures match ReadPacket(old(reader.rest))
            case Stop => r == None
            case Got(packet, used) => r == Some(packet) && reader.rest == old(reader.rest)[used..]
  {
    var header := reader.ReadExact(4);
    if header.None? {
      return None;
    }
    var length := U24Le(header.value[..3]);
    assert header.value[..3] == old(reader.rest)[..3];
    var payload := reader.ReadExact(length);
    if payload.None? {
      return None;
    }
    assert old(reader.rest)[..4 + length] == header.value + payload.value;
    r := Some(header.value + payload.value);
  }

  // ---------- HandshakeResponse ----------

  const FIXED := 32  // capabilities, maximum packet size, character set, reserved bytes

  /** The user ends at the first NUL; without one it is read as empty. */
  function UserEnd(rest: Bytes): (n: nat)
    ensures rest != [] ==> n < |rest|
  {
    if FirstNul(rest) < |rest| then FirstNul(rest) else 0
  }

  /** The database, from the bytes after the user's NUL: auth data with its length, then a C string. */
  function DatabaseOf(t: Codec, rest: Bytes): string {
    if rest == [] then "unknown"
    else if 1 + rest[0] as nat >= |rest| then ""
    else
      var db := rest[1 + rest[0] as nat..];
      t.Lossy8(db[..FirstNul(db)])
  }

  /** `parse_handshake_response`: user and database. */
  function HandshakeOf(t: Codec, packet: Bytes): (string, string) {
    if |packet| < 36 || |packet| - 4 <= FIXED then ("unknown", "unknown")
    else
      var rest := packet[4 + FIXED..];
      (t.Lossy8(rest[..UserEnd(rest)]), DatabaseOf(t, rest[UserEnd(rest) + 1..]))
  }

  /** The same with a moving cursor, which never leaves the payload. */
  method ParseHandshakeResponse(t: Codec, packet: Bytes) returns (user: string, db: string)
    ensures (user, db) == HandshakeOf(t, packet)
  {
    if |packet| < 36 {
      return "unknown", "unknown";
    }
    var p := packet[4..];
    var pos := 4 + 4 + 1 + 23;
    if pos >= |p| {
      return "unknown", "unknown";
    }
    var found := FirstNul(p[pos..]);
    var userEnd := if found < |p| - pos then found else 0;
    ghost var rest := packet[4 + FIXED..];
    assert p[pos..] == rest;
    assert p[pos..pos + userEnd] == rest[..userEnd];
    user := t.Lossy8(p[pos..pos + userEnd]);
    pos := pos + userEnd + 1;
    assert p[pos..] == rest[userEnd + 1..];
    db := ParseDatabase(t, p, pos);
  }

  /** The second half of the parse: the cursor is behind the user's NUL. */
  method ParseDatabase(t: Codec, p: Bytes, start: nat) returns (db: string)
    requires start <= |p|
    ensures db == DatabaseOf(t, p[start..])
  {
    var pos := start;
    if pos >= |p| {
      return "unknown";
    }
    var authLen := p[pos] as nat;
    pos := pos + 1 + authLen;
    if pos >= |p| {
      return "";
    }
    assert p[start..][1 + authLen..] == p[pos..];
    var dbEnd := FirstNul(p[pos..]);
    assert p[pos..pos + dbEnd] == p[pos..][..dbEnd];
    db := t.Lossy8(p[pos..pos + dbEnd]);
  }

  /** A HandshakeResponse41 with a one-byte auth length; the database may or may not carry its NUL. */
  function EncodeHandshake(header: Bytes, fixed: Bytes, user: Bytes, auth: Bytes, db: Bytes, terminated: bool): Bytes
    requires |auth| <= 255
  {
    header + fixed + (user + [0] + ([|auth|] + auth + (db + if terminated then [0] else [])))
  }

  /** Parsing undoes encoding for every NUL-free user and database and any auth data of at most 255 bytes,
      whether or not the database is terminated. */
  lemma HandshakeReadsBack(t: Codec, header: Bytes, fixed: Bytes, user: Bytes, auth: Bytes, db: Bytes, terminated: bool)
    requires |header| == 4 && |fixed| == FIXED && |auth| <= 255
    requires 0 !in user && 0 !in db
    ensures HandshakeOf(t, EncodeHandshake(header, fixed, user, auth, db, terminated)) == (t.Lossy8(user), t.Lossy8(db))
  {
    var end := db + if terminated then [0] else [];
    var afterUser := [|auth|] + auth + end;
    var rest := user + [0] + afterUser;
    var packet := EncodeHandshake(header, fixed, user, auth, db, terminated);
    assert packet == (header + fixed) + rest;
    Seam(header + fixed, rest);
    FirstNulOfCString(user, afterUser);
    assert rest[..|user|] == user && rest[|user| + 1..] == afterUser;
    DatabaseReadsBack(t, auth, db, terminated);
  }

  lemma DatabaseReadsBack(t: Codec, auth: Bytes, db: Bytes, terminated: bool)
    requires |auth| <= 255 && 0 !in db
    ensures DatabaseOf(t, [|auth|] + auth + (db + if terminated then [0] else [])) == t.Lossy8(db)
  {
    var end := db + if terminated then [0] else [];
    var rest := [|auth|] + auth + end;
    Seam([|auth|] + auth, end);
    FirstNulOfCString(db, []);
    assert end == if terminated then db + [0] + [] else db;
    assert end[..|db|] == db;
  }

  // ---------- the ERR packet ----------

  function ErrorPayload(code: nat, sqlState: Bytes, message: Bytes): (b: Bytes)
    requires code < U16
    ensures |b| == 4 + |sqlState| + |message|
  {
    [0xFF] + PutU16Le(code) + [35] + sqlState + message
  }

  /** `send_mysql_error`: the length field keeps the low 24 bits of the payload length. */
  function ErrorPacket(code: nat, sqlState: Bytes, message: Bytes): (b: Bytes)
    requires code < U16
  {
    PutU24Le(4 + |sqlState| + |message|) + [0] + ErrorPayload(code, sqlState, message)
  }

  method SendMySqlError(code: nat, sqlState: Bytes, message: Bytes) returns (packet: Bytes)
    requires code < U16
    ensures packet == ErrorPacket(code, sqlState, message)
  {
    var payload: Bytes := [0xFF];
    payload := payload + PutU16Le(code);
    payload := payload + [35];
    payload := payload + sqlState;
    payload := payload + message;
    assert payload == ErrorPayload(code, sqlState, message);
    var len := |payload|;
    packet := [len % 256];
    packet := packet + [len / 256 % 256];
    packet := packet + [len / 0x1_0000 % 256];
    packet := packet + [0];
    packet := packet + payload;
  }

  /** The exact bound: the packet, with anything behind it, is read back whole if and only if its payload stays
      under 2^24 bytes. With the five-byte SQL state the proxy sends, that is a message of at most 16777206
      bytes. */
  lemma ErrorPacketReadsBackIff(code: nat, sqlState: Bytes, message: Bytes, more: Bytes)
    requires code < U16
    ensures var packet := ErrorPacket(code, sqlState, message);
            ReadPacket(packet + more) == Got(packet, |packet|) <==> 4 + |sqlState| + |message| < 0x100_0000
    ensures |sqlState| == 5 ==> (4 + |sqlState| + |message| < 0x100_0000 <==> |message| <= 16777206)
  {
    hide PutU24Le, ErrorPayload;
    var packet := ErrorPacket(code, sqlState, message);
    assert (packet + more)[..3] == PutU24Le(4 + |sqlState| + |message|);
    Seam(packet, more);
  }

  /** A client reads the code, the SQL state and the message back. */
  lemma ErrorPacketDecodes(code: nat, sqlState: Bytes, message: Bytes)
    requires code < U16 && |sqlState| == 5
    ensures var p := ErrorPacket(code, sqlState, message)[4..];
            p[0] == 0xFF && U16Le(p[1..3]) == code && p[3] == 35 && p[4..9] == sqlState && p[9..] == message
  {
    hide PutU24Le, PutU16Le;
    var p := ErrorPacket(code, sqlState, message)[4..];
    assert p == ErrorPayload(code, sqlState, message);
    assert p[1..3] == PutU16Le(code);
  }
}

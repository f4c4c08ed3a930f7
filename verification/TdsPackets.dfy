/** TDS packets and messages (proxy/src/mssql.rs): reassembly, the SQL text of a batch, PRELOGIN and LOGIN7
    fields. Layouts follow sections 2.2.3.1, 2.2.5.3, 2.2.6.4, 2.2.6.5 and 2.2.6.7 of [MS-TDS]. */
module TdsPackets {
  import opened Options
  import opened Bytes
  import opened Texts
  import opened Streams

  const SQL_BATCH: byte := 0x01
  const LOGIN7: byte := 0x10
  const HEADER_LEN := 8

  // ---------- reading a message ----------

  datatype Reassembly = Failed | Done(msg: Bytes, rest: Bytes)

  function PacketLength(header: Bytes): nat
    requires |header| == 8
  {
    U16Be(header[2..4])
  }

  predicate IsLast(header: Bytes)
    requires |header| == 8
  {
    header[1] % 2 == 1
  }

  /** The packet loop, with what has been gathered so far: the first header and the payloads up to now. */
  function ReadPackets(full: Bytes, s: Bytes): (r: Reassembly)
    ensures r.Done? ==> |r.rest| + 8 <= |s|
    decreases |s|
  {
    if |s| < 8 then Failed
    else
      var header := s[..8];
      var len := PacketLength(header);
      if len < 8 || len > 65536 || len > |s| then Failed
      else
        var gathered := (if full == [] then header else full) + s[8..len];
        if IsLast(header) then Done(gathered, s[len..]) else ReadPackets(gathered, s[len..])
  }

  /** `read_tds_message` on the bytes to come. */
  function ReadMessage(s: Bytes): (r: Read<Bytes>)
    ensures r.Got? ==> 0 < r.used <= |s|
  {
    match ReadPackets([], s)
    case Failed => Stop
    case Done(msg, rest) => Got(msg, |s| - |rest|)
  }

  function MessageFramer(): Framer<Bytes> {
    s => ReadMessage(s)
  }

  lemma MessageFramerProgresses()
    ensures Progressive(MessageFramer())
  {
    forall s: Bytes ensures Sound(MessageFramer()(s), s) {
      assert MessageFramer()(s) == ReadMessage(s);
    }
  }

  method ReadTdsMessage(reader: Reader) returns (r: Option<Bytes>)
    modifies reader
    ensures match ReadPackets([], old(reader.rest))
            case Failed => r == None
            case Done(msg, rest) => r == Some(msg) && reader.rest == rest
  {
    var full: Bytes := [];
    while true
      invariant ReadPackets([], old(reader.rest)) == ReadPackets(full, reader.rest)
      decreases |reader.rest|
    {
      ghost var s := reader.rest;
      var header := reader.ReadExact(HEADER_LEN);
      if header.None? {
        return None;
      }
      var len := PacketLength(header.value);
      if len < HEADER_LEN || len > 65536 {
        return None;
      }
      var payload := reader.ReadExact(len - HEADER_LEN);
      if payload.None? {
        return None;
      }
      assert payload.value == s[8..len] && reader.rest == s[len..] && header.value == s[..8];
      assert full == [] ==> full + header.value == header.value;
      if full == [] {
        full := full + header.value;
      }
      full := full + payload.value;
      if IsLast(header.value) {
        return Some(full);
      }
    }
  }

  // ---------- packets as values ----------

  datatype Packet = Packet(kind: byte, status: byte, spid: Bytes, id: byte, window: byte, payload: Bytes)

  predicate WellFormed(p: Packet) {
    |p.spid| == 2 && |p.payload| <= 65527
  }

  function Header(p: Packet): (h: Bytes)
    requires WellFormed(p)
    ensures |h| == 8 && PacketLength(h) == 8 + |p.payload| && h[0] == p.kind && h[1] == p.status
  {
    var h := [p.kind, p.status] + PutU16Be(8 + |p.payload|) + p.spid + [p.id, p.window];
    assert h[2..4] == PutU16Be(8 + |p.payload|);
    h
  }

  /** The packets of one message: the end-of-message bit is set on the last one only. */
  predicate IsMessage(ps: seq<Packet>) {
    ps != [] && WellFormed(ps[0]) && (ps[0].status % 2 == 1 <==> |ps| == 1) && (|ps| > 1 ==> IsMessage(ps[1..]))
  }

  function Wire(ps: seq<Packet>): Bytes
    requires forall p | p in ps :: WellFormed(p)
  {
    if ps == [] then [] else Header(ps[0]) + ps[0].payload + Wire(ps[1..])
  }

  function Payloads(ps: seq<Packet>): Bytes {
    if ps == [] then [] else ps[0].payload + Payloads(ps[1..])
  }

  lemma {:induction false} MessagePackets(ps: seq<Packet>)
    requires IsMessage(ps)
    ensures forall p | p in ps :: WellFormed(p)
  {
    assert ps == [ps[0]] + ps[1..];
    if |ps| > 1 {
      MessagePackets(ps[1..]);
    }
  }

  /** One packet off the front of the stream. */
  lemma PacketStep(full: Bytes, p: Packet, more: Bytes)
    requires WellFormed(p)
    ensures var gathered := (if full == [] then Header(p) else full) + p.payload;
            ReadPackets(full, Header(p) + p.payload + more)
            == if p.status % 2 == 1 then Done(gathered, more) else ReadPackets(gathered, more)
  {
    var h := Header(p);
    var s := h + p.payload + more;
    var len := 8 + |p.payload|;
    assert s == h + (p.payload + more);
    assert s[..8] == h;
    assert s[8..len] == p.payload;
    assert s[len..] == more;
  }

  lemma {:induction false} PacketsReassemble(full: Bytes, ps: seq<Packet>, more: Bytes)
    requires IsMessage(ps) && forall p | p in ps :: WellFormed(p)
    ensures ReadPackets(full, Wire(ps) + more)
            == Done((if full == [] then Header(ps[0]) else full) + Payloads(ps), more)
    decreases |ps|
  {
    hide Header, ReadPackets;
    var p, rest := ps[0], ps[1..];
    var lead := if full == [] then Header(p) else full;
    assert Wire(ps) + more == Header(p) + p.payload + (Wire(rest) + more);
    PacketStep(full, p, Wire(rest) + more);
    if |ps| == 1 {
      assert rest == [] && Wire(rest) + more == more;
      assert Payloads(ps) == p.payload;
    } else {
      assert |lead + p.payload| >= 1 by { assert |Header(p)| == 8; }
      PacketsReassemble(lead + p.payload, rest, more);
      Assoc(lead, p.payload, Payloads(rest));
    }
  }

  /** However a payload is cut into packets, reading returns the first header and the whole payload, and takes
      exactly the packets. */
  lemma FragmentsReassemble(ps: seq<Packet>, more: Bytes)
    requires IsMessage(ps) && forall p | p in ps :: WellFormed(p)
    ensures ReadMessage(Wire(ps) + more) == Got(Header(ps[0]) + Payloads(ps), |Wire(ps)|)
  {
    PacketsReassemble([], ps, more);
  }

  function DecodePacket(s: Bytes): (p: Packet)
    requires |s| >= 8 && 8 <= PacketLength(s[..8]) <= |s|
    ensures WellFormed(p)
  {
    var len := PacketLength(s[..8]);
    assert len < U16;
    Packet(s[0], s[1], s[4..6], s[6], s[7], s[8..len])
  }

  lemma HeaderOfDecoded(s: Bytes)
    requires |s| >= 8 && 8 <= PacketLength(s[..8]) <= |s|
    ensures Header(DecodePacket(s)) == s[..8]
  {
    var h := s[..8];
    var n := U16Be(h[2..4]);
    assert h[2..4] == [h[2], h[3]];
    assert PutU16Be(n) == [h[2], h[3]];
    assert s[4..6] == [h[4], h[5]];
    assert Header(DecodePacket(s)) == [h[0], h[1]] + [h[2], h[3]] + [h[4], h[5]] + [h[6], h[7]];
  }

  lemma {:induction false} PacketsDecode(full: Bytes, s: Bytes) returns (ps: seq<Packet>)
    requires ReadPackets(full, s).Done?
    ensures IsMessage(ps) && forall p | p in ps :: WellFormed(p)
    ensures s == Wire(ps) + ReadPackets(full, s).rest
    ensures ReadPackets(full, s).msg == (if full == [] then Header(ps[0]) else full) + Payloads(ps)
    decreases |s|
  {
    var len := PacketLength(s[..8]);
    var p := DecodePacket(s);
    HeaderOfDecoded(s);
    var lead := if full == [] then Header(p) else full;
    assert s == Header(p) + p.payload + s[len..];
    hide Header, DecodePacket;
    if IsLast(s[..8]) {
      ps := [p];
      assert ps[1..] == [];
      assert Wire(ps) == Header(p) + p.payload;
      assert Payloads(ps) == p.payload;
    } else {
      var rest := PacketsDecode(lead + p.payload, s[len..]);
      ps := [p] + rest;
      assert ps[1..] == rest;
      Assoc(lead, p.payload, Payloads(rest));
      Assoc(Header(p) + p.payload, Wire(rest), ReadPackets(full, s).rest);
    }
  }

  ghost predicate StartsWithMessage(s: Bytes, ps: seq<Packet>, rest: Bytes) {
    IsMessage(ps) && (forall p | p in ps :: WellFormed(p)) && s == Wire(ps) + rest
  }

  /** On arbitrary bytes a read succeeds exactly when the stream starts with the packets of a message; it then
      returns their first header and payloads, and takes 8 bytes more than it returns for every packet after the
      first. */
  lemma ReadsExactlyMessages(s: Bytes)
    ensures ReadMessage(s).Got? <==> exists ps, rest :: StartsWithMessage(s, ps, rest)
    ensures forall ps, rest :: StartsWithMessage(s, ps, rest) ==>
              ReadMessage(s) == Got(Header(ps[0]) + Payloads(ps), |Wire(ps)|)
              && ReadMessage(s).used == |ReadMessage(s).msg| + 8 * (|ps| - 1)
  {
    hide Header;
    if ReadMessage(s).Got? {
      var ps := PacketsDecode([], s);
      assert StartsWithMessage(s, ps, ReadPackets([], s).rest);
    }
    forall ps, rest | StartsWithMessage(s, ps, rest)
      ensures ReadMessage(s) == Got(Header(ps[0]) + Payloads(ps), |Wire(ps)|)
      ensures |Wire(ps)| == 8 * |ps| + |Payloads(ps)|
    {
      FragmentsReassemble(ps, rest);
      WireLength(ps);
    }
  }

  /** A message is read the same whatever follows it. */
  lemma MessagesArePrefixStable()
    ensures PrefixStable(MessageFramer())
  {
    hide ReadPackets, Header, Wire;
    forall a: Bytes, b: Bytes | MessageFramer()(a).Got? ensures MessageFramer()(a + b) == MessageFramer()(a) {
      var ps := PacketsDecode([], a);
      var rest := ReadPackets([], a).rest;
      Assoc(Wire(ps), rest, b);
      FragmentsReassemble(ps, rest);
      FragmentsReassemble(ps, rest + b);
    }
  }

  lemma {:induction false} WireLength(ps: seq<Packet>)
    requires forall p | p in ps :: WellFormed(p)
    ensures |Wire(ps)| == 8 * |ps| + |Payloads(ps)|
  {
    if ps != [] {
      WireLength(ps[1..]);
    }
  }

  /** What is forwarded upstream is the message as reassembled. It equals the bytes read, and would be read back
      as itself, if and only if the message came in a single packet: otherwise the first header still announces
      the first fragment. */
  lemma ForwardedVerbatimIffSinglePacket(s: Bytes, ps: seq<Packet>, rest: Bytes)
    requires StartsWithMessage(s, ps, rest)
    ensures ReadMessage(s).Got?
    ensures ReadMessage(s).msg == s[..ReadMessage(s).used] <==> |ps| == 1
    ensures ReadMessage(ReadMessage(s).msg) == Got(ReadMessage(s).msg, |ReadMessage(s).msg|) <==> |ps| == 1
  {
    hide Header, ReadPackets;
    ReadsExactlyMessages(s);
    var msg := ReadMessage(s).msg;
    if |ps| == 1 {
      assert ps[1..] == [];
      assert Wire(ps) == msg;
      Seam(Wire(ps), rest);
      assert msg == Wire(ps) + [];
      FragmentsReassemble(ps, []);
    } else if ReadMessage(msg) == Got(msg, |msg|) {
      var qs := PacketsDecode([], msg);
      assert StartsWithMessage(msg, qs, ReadPackets([], msg).rest);
      ReadsExactlyMessages(msg);
      FirstHeaderOf(ps, qs, msg, ReadPackets([], msg).rest);
    }
  }

  /** A stream that begins with a header without the end-of-message bit needs at least two packets. */
  lemma FirstHeaderOf(ps: seq<Packet>, qs: seq<Packet>, msg: Bytes, rest: Bytes)
    requires IsMessage(ps) && |ps| > 1 && msg == Header(ps[0]) + Payloads(ps)
    requires StartsWithMessage(msg, qs, rest)
    ensures |qs| > 1
  {
    assert msg[1] == ps[0].status;
    assert msg[1] == Header(qs[0])[1] == qs[0].status;
  }

  // ---------- forwarding reassembled messages ----------

  ghost predicate MadeOf(m: Bytes, ps: seq<Packet>) {
    IsMessage(ps) && (forall p | p in ps :: WellFormed(p)) && m == Header(ps[0]) + Payloads(ps)
  }

  /** What reassembly makes of some packets: the first header and every payload. */
  ghost predicate Reassembled(m: Bytes) {
    exists ps :: MadeOf(m, ps)
  }

  /** The first header carries the end-of-message bit. */
  predicate OnePacket(m: Bytes) {
    |m| >= 8 && IsLast(m[..8])
  }

  lemma OnePacketIff(m: Bytes, ps: seq<Packet>)
    requires MadeOf(m, ps)
    ensures OnePacket(m) <==> |ps| == 1
    ensures OnePacket(m) <==> ReadMessage(m) == Got(m, |m|)
  {
    hide ReadMessage, Header;
    Seam(Header(ps[0]), Payloads(ps));
    assert m[..8][1] == ps[0].status;
    assert Wire(ps) + [] == Wire(ps);
    assert StartsWithMessage(Wire(ps), ps, []);
    ReadsExactlyMessages(Wire(ps));
    ForwardedVerbatimIffSinglePacket(Wire(ps), ps, []);
  }

  /** The wire bytes of a frame are the packets of one message, and the message is their first header and
      payloads. */
  ghost predicate FromPackets(frame: Frame<Bytes>) {
    exists ps :: StartsWithMessage(frame.wire, ps, []) && frame.msg == Header(ps[0]) + Payloads(ps)
                 && |frame.wire| == |frame.msg| + 8 * (|ps| - 1)
  }

  lemma {:induction false} FramesArePackets(s: Bytes)
    ensures forall i | 0 <= i < |Frames(MessageFramer(), s)| :: FromPackets(Frames(MessageFramer(), s)[i])
    decreases |s|
  {
    hide ReadPackets, Header, Payloads, FromPackets, Wire, IsMessage;
    var r := ReadMessage(s);
    assert MessageFramer()(s) == r;
    if r.Got? {
      OneFrame(s);
      FramesArePackets(s[r.used..]);
    }
  }

  lemma OneFrame(s: Bytes)
    requires ReadMessage(s).Got?
    ensures FromPackets(Frame(ReadMessage(s).msg, s[..ReadMessage(s).used]))
  {
    hide ReadPackets, Header, Payloads, IsMessage, Wire;
    var ps := PacketsDecode([], s);
    var rest := ReadPackets([], s).rest;
    assert StartsWithMessage(s, ps, rest);
    ReadsExactlyMessages(s);
    Seam(Wire(ps), rest);
    assert Wire(ps) + [] == Wire(ps);
    assert StartsWithMessage(Wire(ps), ps, []);
  }

  lemma FrameLength(frame: Frame<Bytes>)
    requires FromPackets(frame)
    ensures |frame.msg| <= |frame.wire|
    ensures |frame.msg| == |frame.wire| ==> OnePacket(frame.msg)
  {
    hide OnePacket, Payloads, Wire;
    var ps :| StartsWithMessage(frame.wire, ps, []) && frame.msg == Header(ps[0]) + Payloads(ps)
              && |frame.wire| == |frame.msg| + 8 * (|ps| - 1);
    assert MadeOf(frame.msg, ps);
    OnePacketIff(frame.msg, ps);
  }

  lemma FrameHasHeader(frame: Frame<Bytes>)
    requires FromPackets(frame)
    ensures |frame.msg| >= 8
  {
    hide Payloads, Wire;
    var ps :| StartsWithMessage(frame.wire, ps, []) && frame.msg == Header(ps[0]) + Payloads(ps)
              && |frame.wire| == |frame.msg| + 8 * (|ps| - 1);
  }

  lemma FrameIsReassembled(frame: Frame<Bytes>)
    requires FromPackets(frame)
    ensures Reassembled(frame.msg)
  {
    hide Header, Payloads, Wire;
    var ps :| StartsWithMessage(frame.wire, ps, []) && frame.msg == Header(ps[0]) + Payloads(ps)
              && |frame.wire| == |frame.msg| + 8 * (|ps| - 1);
    assert MadeOf(frame.msg, ps);
  }

  lemma ReadIsReassembled(s: Bytes)
    requires ReadPackets([], s).Done?
    ensures Reassembled(ReadPackets([], s).msg)
  {
    hide ReadPackets, Header, Payloads, Wire, IsMessage;
    var ps := PacketsDecode([], s);
    assert MadeOf(ReadPackets([], s).msg, ps);
  }

  /** A message is never longer than its packets, and as long as them only when there was one. */
  lemma {:induction false} FrameLengths(frames: seq<Frame<Bytes>>)
    requires forall i | 0 <= i < |frames| :: FromPackets(frames[i])
    ensures |Flatten(Messages(frames))| <= |Flatten(Wires(frames))|
    ensures |Flatten(Messages(frames))| == |Flatten(Wires(frames))| ==>
              forall i | 0 <= i < |frames| :: OnePacket(frames[i].msg)
  {
    hide OnePacket, FromPackets;
    if frames != [] {
      var head, rest := frames[0], frames[1..];
      FrameLength(head);
      FrameLengths(rest);
      assert frames == [head] + rest;
      assert Wires(frames)[1..] == Wires(rest) && Messages(frames)[1..] == Messages(rest);
    }
  }

  /** The exact line for forwarding: whoever reads what the proxy sends on sees the same messages as the proxy if
      and only if each of them came in a single packet. */
  lemma ForwardingKeepsMessagesIff(ms: seq<Bytes>)
    requires forall m | m in ms :: Reassembled(m)
    ensures Received(MessageFramer(), Flatten(ms)) == ms <==> forall m | m in ms :: OnePacket(m)
  {
    hide OnePacket, Reassembled, ReadMessage, Flatten, FromPackets;
    var f := MessageFramer();
    if forall m | m in ms :: OnePacket(m) {
      MessagesArePrefixStable();
      forall m | m in ms ensures StandsAs(f, m, m) {
        OnePacketStands(m);
      }
      ReadsBack(f, ms, []);
      assert Flatten(ms) + [] == Flatten(ms) && ms + [] == ms;
    }
    if Received(f, Flatten(ms)) == ms {
      FramesConserve(f, Flatten(ms));
      FramesArePackets(Flatten(ms));
      FrameLengths(Frames(f, Flatten(ms)));
    }
  }

  lemma OnePacketStands(m: Bytes)
    requires Reassembled(m) && OnePacket(m)
    ensures StandsAs(MessageFramer(), m, m)
  {
    hide ReadMessage, OnePacket, MadeOf;
    var ps :| MadeOf(m, ps);
    OnePacketIff(m, ps);
    assert MessageFramer()(m) == ReadMessage(m);
  }

  /** Two packets of one message; the second carries an empty packet that ends a message, and then b. */
  function TwoInOne(kind: byte, b: Packet): seq<Packet>
    requires WellFormed(b)
  {
    var empty := Packet(kind, 1, [0, 0], 2, 0, []);
    [Packet(kind, 0, [0, 0], 1, 0, []), empty.(payload := Header(empty) + (Header(b) + b.payload))]
  }

  /** An input on which the two readings differ, for any packet b that is a message by itself: the proxy reads one
      message of the given kind, and whoever reads that message as forwarded finds b in it. */
  lemma ReadingsDiffer(kind: byte, b: Packet)
    requires WellFormed(b) && b.status % 2 == 1 && |b.payload| <= 65511
    ensures var ps := TwoInOne(kind, b);
            && IsMessage(ps) && (forall p | p in ps :: WellFormed(p)) && ps[0].kind == kind
            && Received(MessageFramer(), Wire(ps)) == [Header(ps[0]) + Payloads(ps)]
            && var read := Received(MessageFramer(), Header(ps[0]) + Payloads(ps));
               |read| == 2 && read[1] == Header(b) + b.payload
  {
    hide Header, ReadMessage, Received, Wire, Payloads, IsMessage;
    var ps, empty := TwoInOne(kind, b), Packet(kind, 1, [0, 0], 2, 0, []);
    TwoPackets(ps[0], ps[1]);
    TwoPackets(ps[0], empty);
    SinglePacket(b);
    ReadsOne(ps, []);
    ReadsOne([ps[0], empty], Wire([b]));
    ReadsOne([b], []);
    assert ps == [ps[0], ps[1]];
    Regroup(Header(ps[0]), Header(empty), Header(b) + b.payload);
  }

  lemma Regroup(a: Bytes, b: Bytes, c: Bytes)
    ensures a + [] + (b + []) + c == a + ([] + (b + c))
    ensures a + ([] + []) == a
  {
  }

  lemma SinglePacket(b: Packet)
    requires WellFormed(b) && b.status % 2 == 1
    ensures IsMessage([b]) && Wire([b]) == Header(b) + b.payload && Payloads([b]) == b.payload
  {
    hide Header;
    assert [b][1..] == [];
    assert Wire([b]) == Header(b) + b.payload + Wire([]);
    assert Payloads([b]) == b.payload + Payloads([]);
  }

  lemma TwoPackets(p: Packet, q: Packet)
    requires WellFormed(p) && WellFormed(q) && p.status % 2 == 0 && q.status % 2 == 1
    ensures IsMessage([p, q])
    ensures Wire([p, q]) == Header(p) + p.payload + (Header(q) + q.payload)
    ensures Payloads([p, q]) == p.payload + q.payload
  {
    hide Header;
    assert [p, q][1..] == [q];
    SinglePacket(q);
  }

  lemma ReadsOne(ps: seq<Packet>, more: Bytes)
    requires IsMessage(ps) && forall p | p in ps :: WellFormed(p)
    ensures Received(MessageFramer(), Wire(ps) + more)
            == [Header(ps[0]) + Payloads(ps)] + Received(MessageFramer(), more)
    ensures Received(MessageFramer(), []) == []
    ensures Wire(ps) + [] == Wire(ps)
  {
    hide ReadMessage, Header;
    FragmentsReassemble(ps, more);
    var s, msg := Wire(ps) + more, Header(ps[0]) + Payloads(ps);
    Seam(Wire(ps), more);
    assert MessageFramer()(s) == ReadMessage(s);
    assert |Wire(ps)| > 0 by { WireLength(ps); }
    assert Frames(MessageFramer(), s) == [Frame(msg, Wire(ps))] + Frames(MessageFramer(), more);
  }

  // ---------- UTF-16 text ----------

  /** `chunks_exact(2)`: a trailing odd byte is dropped. */
  function Units(b: Bytes): seq<Unit16> {
    if |b| < 2 then [] else [U16Le(b[..2])] + Units(b[2..])
  }

  function EncodeUnits(u: seq<Unit16>): (b: Bytes)
    ensures |b| == 2 * |u|
  {
    if u == [] then [] else PutU16Le(u[0]) + EncodeUnits(u[1..])
  }

  lemma {:induction false} UnitsReadBack(u: seq<Unit16>)
    ensures Units(EncodeUnits(u)) == u
  {
    if u != [] {
      Seam(PutU16Le(u[0]), EncodeUnits(u[1..]));
      UnitsReadBack(u[1..]);
    }
  }

  /** An odd byte at the end is no part of the text. */
  lemma {:induction false} OddByteIsDropped(u: seq<Unit16>, x: byte)
    ensures Units(EncodeUnits(u) + [x]) == u
  {
    if u != [] {
      assert EncodeUnits(u) + [x] == PutU16Le(u[0]) + (EncodeUnits(u[1..]) + [x]);
      Seam(PutU16Le(u[0]), EncodeUnits(u[1..]) + [x]);
      OddByteIsDropped(u[1..], x);
    }
  }

  // ---------- SQL batch ----------

  /** Where the text starts: after the ALL_HEADERS block when its length field is plausible. */
  function SqlStart(payload: Bytes): (start: nat)
    ensures start == 0 || 4 < start < |payload|
  {
    if |payload| > 4 then
      var len := U32Le(payload[..4]);
      if 4 < len < |payload| then len else 0
    else 0
  }

  function Clean(t: Codec, u: seq<Unit16>): string {
    Trim(TrimNuls(t.Lossy16(u)))
  }

  /** `extract_sql_batch_query` */
  function ExtractQuery(t: Codec, packet: Bytes): string {
    if |packet| <= HEADER_LEN then ""
    else
      var payload := packet[HEADER_LEN..];
      Clean(t, Units(payload[SqlStart(payload)..]))
  }

  /** A batch that opens with an ALL_HEADERS block yields its text, rid of outer NULs and whitespace, however it
      was cut into packets. */
  lemma FragmentedBatchYieldsItsText(t: Codec, ps: seq<Packet>, headers: Bytes, text: seq<Unit16>, more: Bytes)
    requires IsMessage(ps) && forall p | p in ps :: WellFormed(p)
    requires 4 < |headers| && U32Le(headers[..4]) == |headers| && text != []
    requires Payloads(ps) == headers + EncodeUnits(text)
    ensures ReadMessage(Wire(ps) + more).Got?
    ensures IsCore(t.Lossy16(text), ExtractQuery(t, ReadMessage(Wire(ps) + more).msg))
  {
    hide Header, Units, EncodeUnits, ReadMessage, Trim, TrimNuls, IsCore;
    CoreIsTheOne(t.Lossy16(text), Clean(t, text));
    FragmentsReassemble(ps, more);
    var payload := Payloads(ps);
    Seam(Header(ps[0]), payload);
    Seam(headers, EncodeUnits(text));
    assert payload[..4] == headers[..4];
    UnitsReadBack(text);
  }

  /** Any two fragmentations of one payload give the same text. */
  lemma TextIgnoresFragmentation(t: Codec, ps: seq<Packet>, qs: seq<Packet>, more: Bytes, others: Bytes)
    requires IsMessage(ps) && forall p | p in ps :: WellFormed(p)
    requires IsMessage(qs) && forall q | q in qs :: WellFormed(q)
    requires Payloads(ps) == Payloads(qs)
    ensures ReadMessage(Wire(ps) + more).Got? && ReadMessage(Wire(qs) + others).Got?
    ensures ExtractQuery(t, ReadMessage(Wire(ps) + more).msg) == ExtractQuery(t, ReadMessage(Wire(qs) + others).msg)
  {
    hide Header, Units, ReadMessage, Clean, SqlStart;
    FragmentsReassemble(ps, more);
    FragmentsReassemble(qs, others);
    Seam(Header(ps[0]), Payloads(ps));
    Seam(Header(qs[0]), Payloads(qs));
  }

  /** A batch without headers: its text is kept whole exactly when its first two code units do not look like a
      length inside the payload. */
  lemma HeaderlessTextIsKeptIff(text: seq<Unit16>)
    ensures SqlStart(EncodeUnits(text)) == 0
            <==> |text| < 3 || !(4 < text[0] as int + 0x1_0000 * (text[1] as int) < 2 * |text|)
  {
    if |text| >= 3 {
      FirstFour(text);
    }
  }

  lemma FirstFour(text: seq<Unit16>)
    requires |text| >= 2
    ensures U32Le(EncodeUnits(text)[..4]) == text[0] as int + 0x1_0000 * (text[1] as int)
  {
    hide PutU16Le;
    var later := text[1..];
    assert EncodeUnits(text) == PutU16Le(text[0]) + EncodeUnits(later);
    assert EncodeUnits(later) == PutU16Le(text[1]) + EncodeUnits(later[1..]);
    hide EncodeUnits;
    FourBytes(PutU16Le(text[0]), PutU16Le(text[1]), EncodeUnits(later[1..]));
  }

  lemma FourBytes(a: Bytes, b: Bytes, rest: Bytes)
    requires |a| == 2 && |b| == 2
    ensures U32Le((a + (b + rest))[..4]) == U16Le(a) + 0x1_0000 * U16Le(b)
  {
    var four := (a + (b + rest))[..4];
    assert four[..2] == a && four[2..] == b;
  }

  /** A batch without payload has no text. */
  lemma NoPayloadNoText(t: Codec, packet: Bytes)
    requires |packet| <= 8
    ensures ExtractQuery(t, packet) == ""
  {
  }

  /** In particular short text, or text whose second code unit is not NUL in a payload under 64 KiB, is extracted
      whole, but for outer NULs and whitespace. A packet without payload yields no text. */
  lemma OrdinaryHeaderlessText(t: Codec, header: Bytes, text: seq<Unit16>)
    requires |header| == HEADER_LEN && text != []
    requires |text| < 3 || (text[1] != 0 && 2 * |text| < 0x1_0000)
    ensures IsCore(t.Lossy16(text), ExtractQuery(t, header + EncodeUnits(text)))
  {
    hide Trim, TrimNuls, IsCore;
    CoreIsTheOne(t.Lossy16(text), Clean(t, text));
    HeaderlessTextIsKeptIff(text);
    Seam(header, EncodeUnits(text));
    assert EncodeUnits(text)[0..] == EncodeUnits(text);
    UnitsReadBack(text);
  }

  // ---------- PRELOGIN ----------

  function OptionToken(p: Bytes, k: nat): byte
    requires 5 * k + 5 <= |p|
  {
    p[5 * k]
  }

  function OptionOffset(p: Bytes, k: nat): nat
    requires 5 * k + 5 <= |p|
  {
    U16Be(p[5 * k + 1..5 * k + 3])
  }

  function OptionLength(p: Bytes, k: nat): nat
    requires 5 * k + 5 <= |p|
  {
    U16Be(p[5 * k + 3..5 * k + 5])
  }

  /** Option k is there and no option up to it is the terminator. */
  predicate Listed(p: Bytes, k: nat) {
    5 * k + 5 <= |p| && forall j | 0 <= j <= k :: OptionToken(p, j) != 0xFF
  }

  /** A non-empty ENCRYPTION option that points into the payload. */
  predicate Announces(p: Bytes, k: nat)
    requires 5 * k + 5 <= |p|
  {
    OptionToken(p, k) == 0x01 && OptionLength(p, k) >= 1 && OptionOffset(p, k) < |p|
  }

  predicate IsOn(value: byte) {
    value == 1 || value == 3
  }

  /** The first listed ENCRYPTION option decides. */
  ghost predicate DecidedBy(p: Bytes, k: nat) {
    Listed(p, k) && Announces(p, k) && forall j | 0 <= j < k :: !Announces(p, j)
  }

  ghost predicate IsEncrypted(p: Bytes) {
    exists k: nat :: DecidedBy(p, k) && IsOn(p[OptionOffset(p, k)])
  }

  /** `is_encrypted_prelogin` answers yes exactly when the first usable ENCRYPTION option before the terminator
      is on. */
  method IsEncryptedPrelogin(resp: Bytes) returns (encrypted: bool)
    ensures encrypted <==> |resp| > HEADER_LEN && IsEncrypted(resp[HEADER_LEN..])
  {
    if |resp| <= HEADER_LEN {
      return false;
    }
    var p := resp[HEADER_LEN..];
    var pos := 0;
    ghost var k: nat := 0;
    while pos + 5 <= |p|
      invariant pos == 5 * k && pos <= |p|
      invariant forall j: nat | j < k :: 5 * j + 5 <= |p| && OptionToken(p, j) != 0xFF && !Announces(p, j)
      decreases |p| - pos
    {
      var token := p[pos];
      if token == 0xFF {
        assert forall i: nat :: i >= k ==> !Listed(p, i) by {
          assert OptionToken(p, k) == 0xFF;
        }
        return false;
      }
      var offset := U16Be(p[pos + 1..pos + 3]);
      var length := U16Be(p[pos + 3..pos + 5]);
      assert token == OptionToken(p, k) && offset == OptionOffset(p, k) && length == OptionLength(p, k);
      pos := pos + 5;
      if token == 0x01 && length >= 1 && offset < |p| {
        assert DecidedBy(p, k);
        assert forall i: nat :: DecidedBy(p, i) ==> i == k;
        return p[offset] == 1 || p[offset] == 3;
      }
      k := k + 1;
    }
    return false;
  }

  // ---------- LOGIN7 ----------

  /** `read_utf16le`: empty when the range leaves the payload. */
  function ReadUtf16(t: Codec, payload: Bytes, offset: nat, count: nat): string {
    if count == 0 || offset + count * 2 > |payload| then ""
    else t.Lossy16(Units(payload[offset..offset + count * 2]))
  }

  function OrElse(s: string, fallback: string): string {
    if s == "" then fallback else s
  }

  /** `parse_login7`: user and database, wherever the offset and length pairs point. */
  function ParseLogin7(t: Codec, packet: Bytes): (string, string) {
    if |packet| < HEADER_LEN + 90 then ("unknown", "mssql")
    else
      var p := packet[HEADER_LEN..];
      (OrElse(ReadUtf16(t, p, U16Le(p[40..42]), U16Le(p[42..44])), "unknown"),
       OrElse(ReadUtf16(t, p, U16Le(p[68..70]), U16Le(p[70..72])), "mssql"))
  }

  /** The pair of 16-bit fields at `at` points to `text`: an empty text may be pointed to anywhere. */
  predicate PointsTo(p: Bytes, at: nat, text: seq<Unit16>)
    requires at + 4 <= |p|
  {
    var offset, count := U16Le(p[at..at + 2]), U16Le(p[at + 2..at + 4]);
    count == |text| && (text == [] || (offset + 2 * count <= |p| && p[offset..offset + 2 * count] == EncodeUnits(text)))
  }

  /** A pair that leaves the payload yields nothing. */
  predicate PointsAway(p: Bytes, at: nat)
    requires at + 4 <= |p|
  {
    U16Le(p[at..at + 2]) + 2 * U16Le(p[at + 2..at + 4]) > |p|
  }

  /** Packets too short for a LOGIN7 get the defaults, and so does a pair that points out of the packet. */
  lemma Login7Defaults(t: Codec, packet: Bytes)
    ensures |packet| < 98 ==> ParseLogin7(t, packet) == ("unknown", "mssql")
    ensures |packet| >= 98 && PointsAway(packet[8..], 40) ==> ParseLogin7(t, packet).0 == "unknown"
    ensures |packet| >= 98 && PointsAway(packet[8..], 68) ==> ParseLogin7(t, packet).1 == "mssql"
  {
  }

  /** For any layout whose two pairs point to the encoded user and database, those are returned, and the
      defaults when they are empty. */
  lemma Login7YieldsItsFields(t: Codec, header: Bytes, p: Bytes, user: seq<Unit16>, database: seq<Unit16>)
    requires |header| == HEADER_LEN && |p| >= 90
    requires PointsTo(p, 40, user) && PointsTo(p, 68, database)
    ensures ParseLogin7(t, header + p).0 == if t.Lossy16(user) == "" then "unknown" else t.Lossy16(user)
    ensures ParseLogin7(t, header + p).1 == if t.Lossy16(database) == "" then "mssql" else t.Lossy16(database)
  {
    hide Units, EncodeUnits;
    Seam(header, p);
    UnitsReadBack(user);
    UnitsReadBack(database);
  }
}

/** The Redis proxy: reading RESP commands, blocking, auditing and forwarding them (proxy/src/redis.rs). */
module Redis {
  import opened Options
  import opened Bytes
  import opened Texts
  import opened Decimal
  import opened Streams
  import opened Rules
  import opened Engine
  import opened AuditEvents
  import opened Tunnel

  const CRLF: Bytes := [13, 10]
  const STAR: byte := 42
  const DOLLAR: byte := 36

  const DENY_RESP: Bytes := Ascii("-ERR Access denied by ganji-DAC\r\n")

  const DANGEROUS_COMMANDS: seq<string> :=
    ["FLUSHALL", "FLUSHDB", "CONFIG", "DEBUG", "SHUTDOWN", "SLAVEOF", "REPLICAOF"]

  const LISTED := "위험 커맨드 차단: "

  datatype Command = Command(name: string, raw: Bytes)

  // ---------- reading one command ----------

  function TrimCrLf(s: Bytes): Bytes {
    if |s| >= 2 && s[|s| - 2..] == CRLF then TrimCrLf(s[..|s| - 2]) else s
  }

  function TrimLf(s: Bytes): Bytes {
    if s != [] && s[|s| - 1] == LF then TrimLf(s[..|s| - 1]) else s
  }

  /** `trim_end_matches("\r\n").trim_end_matches('\n')` */
  function TrimEol(s: Bytes): Bytes {
    TrimLf(TrimCrLf(s))
  }

  /** A bulk string: the announced length and the buffer that was read for it, CRLF included. */
  datatype Bulk = Bulk(len: nat, data: Bytes)

  /** The announced length of a bulk string; a line that is no `$` header announces 0. */
  function BulkLength(header: Bytes): nat {
    var h := TrimEol(header);
    if h != [] && h[0] == DOLLAR then ParseOrZero(h[1..]) else 0
  }

  /** `bulk_len + 2` wraps like a 64-bit usize, and a buffer of more than isize::MAX bytes ends the task. */
  function ReadBulk(s: Bytes): (r: Read<Bulk>)
    ensures Sound(r, s)
  {
    var header := FirstLine(s);
    if header == [] || !Utf8Valid(header) then Stop
    else
      var len := BulkLength(header);
      var size := (len + 2) % 0x1_0000_0000_0000_0000;
      var body := s[|header|..];
      if size >= 0x8000_0000_0000_0000 || size > |body| then Stop else Got(Bulk(len, body[..size]), |header| + size)
  }

  datatype ArrayRead = Failed | Done(name: string, raw: Bytes, rest: Bytes)

  /** Bulk strings i to count of an array, with the name and the raw bytes gathered so far. The name is the
      first bulk string; one that overruns its buffer ends the task. */
  function ReadBulks(t: Codec, i: nat, count: nat, name: string, raw: Bytes, s: Bytes): (r: ArrayRead)
    ensures r.Done? ==> |raw| <= |r.raw| && |r.raw| + |r.rest| == |raw| + |s|
    decreases |s|
  {
    if i >= count then Done(name, raw, s)
    else
      match ReadBulk(s)
      case Stop => Failed
      case Got(bulk, used) =>
        if i == 0 && bulk.len > |bulk.data| then Failed
        else
          ReadBulks(t, i + 1, count, if i == 0 then t.Lossy8(bulk.data[..bulk.len]) else name,
                    raw + s[..used], s[used..])
  }

  /** Raw bytes and remaining bytes make up what there was. */
  lemma {:induction false} BulksConserve(t: Codec, i: nat, count: nat, name: string, raw: Bytes, s: Bytes)
    ensures var r := ReadBulks(t, i, count, name, raw, s);
            r.Done? ==> r.raw + r.rest == raw + s
    decreases |s|
  {
    hide ReadBulk;
    if i < count && ReadBulk(s).Got? {
      var bulk, used := ReadBulk(s).msg, ReadBulk(s).used;
      var name' := if i == 0 && bulk.len <= |bulk.data| then t.Lossy8(bulk.data[..bulk.len]) else name;
      BulksConserve(t, i + 1, count, name', raw + s[..used], s[used..]);
      Assoc(raw, s[..used], s[used..]);
      assert s[..used] + s[used..] == s;
    }
  }

  /** `read_resp_command` on the bytes to come: arrays of bulk strings and inline commands. */
  function ReadCommand(t: Codec, s: Bytes): (r: Read<Command>)
    ensures r.Got? ==> 0 < r.used <= |s|
  {
    var line := FirstLine(s);
    if line == [] || !Utf8Valid(line) then Stop
    else
      var text := TrimEol(line);
      if text == [] then Got(Command("", line), |line|)
      else if text[0] == STAR then
        match ReadBulks(t, 0, ParseOrZero(text[1..]), "", line, s[|line|..])
        case Failed => Stop
        case Done(name, raw, rest) =>
          Got(Command(name, raw), |raw|)
      else Got(Command(FirstWord(t.Lossy8(text)), line), |line|)
  }

  /** The raw bytes of a command are the bytes it took off the stream. */
  lemma RawIsWhatWasRead(t: Codec, s: Bytes)
    ensures var r := ReadCommand(t, s);
            r.Got? ==> r.msg.raw == s[..r.used]
  {
    hide ReadBulks, TrimEol, Utf8Valid, ParseOrZero;
    var line := FirstLine(s);
    var r := ReadCommand(t, s);
    if r.Got? && TrimEol(line) != [] && TrimEol(line)[0] == STAR {
      var count := ParseOrZero(TrimEol(line)[1..]);
      var d := ReadBulks(t, 0, count, "", line, s[|line|..]);
      BulksConserve(t, 0, count, "", line, s[|line|..]);
      assert d.raw + d.rest == s;
      Seam(d.raw, d.rest);
    }
  }

  function CommandFramer(t: Codec): Framer<Command> {
    s => ReadCommand(t, s)
  }

  /** Every read takes at least one byte, and the raw bytes it returns are the bytes it took. */
  lemma CommandFramerProgresses(t: Codec)
    ensures Progressive(CommandFramer(t))
    ensures forall s: Bytes :: CommandFramer(t)(s).Got? ==>
              CommandFramer(t)(s).msg.raw == s[..CommandFramer(t)(s).used]
  {
    forall s: Bytes
      ensures Sound(CommandFramer(t)(s), s)
      ensures CommandFramer(t)(s).Got? ==> CommandFramer(t)(s).msg.raw == s[..CommandFramer(t)(s).used]
    {
      RawIsWhatWasRead(t, s);
    }
  }

  method ReadOneBulk(reader: Reader) returns (r: Option<(Bulk, Bytes)>)
    modifies reader
    ensures ReadBulk(old(reader.rest)).Stop? ==> r == None
    ensures ReadBulk(old(reader.rest)).Got? ==>
              var got := ReadBulk(old(reader.rest));
              r == Some((got.msg, old(reader.rest)[..got.used])) && reader.rest == old(reader.rest)[got.used..]
  {
    hide BulkLength, Utf8Valid;
    var header, ok := reader.ReadLine();
    if header == [] || !ok {
      return None;
    }
    var len := BulkLength(header);
    var size := (len + 2) % 0x1_0000_0000_0000_0000;
    if size >= 0x8000_0000_0000_0000 {
      return None;
    }
    var data := reader.ReadExact(size);
    if data.None? {
      return None;
    }
    assert old(reader.rest)[..|header| + size] == header + data.value;
    r := Some((Bulk(len, data.value), header + data.value));
  }

  method ReadRespCommand(t: Codec, reader: Reader) returns (r: Option<Command>)
    modifies reader
    ensures ReadCommand(t, old(reader.rest)).Stop? ==> r == None
    ensures ReadCommand(t, old(reader.rest)).Got? ==>
              var got := ReadCommand(t, old(reader.rest));
              r == Some(got.msg) && reader.rest == old(reader.rest)[got.used..]
  {
    hide ReadBulks, TrimEol, Utf8Valid, ParseOrZero;
    var firstLine, ok := reader.ReadLine();
    if firstLine == [] || !ok {
      return None;
    }
    var text := TrimEol(firstLine);
    if text == [] {
      return Some(Command("", firstLine));
    }
    if text[0] == STAR {
      ghost var body := reader.rest;
      r := ReadArray(t, firstLine, ParseOrZero(text[1..]), reader);
      if r.Some? {
        BulksConserve(t, 0, ParseOrZero(text[1..]), "", firstLine, body);
        assert old(reader.rest) == firstLine + body == r.value.raw + reader.rest;
        Seam(r.value.raw, reader.rest);
      }
    } else {
      r := Some(Command(FirstWord(t.Lossy8(text)), firstLine));
    }
  }

  /** The counted loop over the bulk strings of an array. */
  method ReadArray(t: Codec, firstLine: Bytes, count: nat, reader: Reader) returns (r: Option<Command>)
    modifies reader
    ensures match ReadBulks(t, 0, count, "", firstLine, old(reader.rest))
            case Failed => r == None
            case Done(name, raw, rest) => r == Some(Command(name, raw)) && reader.rest == rest
  {
    hide ReadBulk;
    var raw, name := firstLine, "";
    var i := 0;
    while i < count
      invariant i <= count
      invariant ReadBulks(t, 0, count, "", firstLine, old(reader.rest))
             == ReadBulks(t, i, count, name, raw, reader.rest)
    {
      var next := ReadOneBulk(reader);
      if next.None? {
        return None;
      }
      var (bulk, wire) := next.value;
      if i == 0 {
        if bulk.len > |bulk.data| {
          return None;
        }
        name := t.Lossy8(bulk.data[..bulk.len]);
      }
      raw := raw + wire;
      i := i + 1;
    }
    r := Some(Command(name, raw));
  }

  // ---------- the RESP encoding, and reading it back ----------

  function Header(mark: byte, n: nat): Bytes {
    [mark] + Digits(n) + CRLF
  }

  function EncodeBulk(arg: Bytes): Bytes {
    Header(DOLLAR, |arg|) + arg + CRLF
  }

  function EncodeBulks(args: seq<Bytes>): Bytes {
    if args == [] then [] else EncodeBulk(args[0]) + EncodeBulks(args[1..])
  }

  /** `*N` and then one bulk string per argument. */
  function EncodeCommand(args: seq<Bytes>): Bytes {
    Header(STAR, |args|) + EncodeBulks(args)
  }

  /** Counts and buffers fit a 64-bit address space. Payloads are arbitrary bytes, CRLF included. */
  predicate Encodable(args: seq<Bytes>) {
    |args| < U64 && forall i | 0 <= i < |args| :: |args[i]| + 2 < 0x8000_0000_0000_0000
  }

  function NameOf(t: Codec, args: seq<Bytes>): string {
    if args == [] then "" else t.Lossy8(args[0])
  }

  lemma HeaderReadsBack(mark: byte, n: nat, more: Bytes)
    requires mark < 128 && mark != LF
    requires n < U64
    ensures FirstLine(Header(mark, n) + more) == Header(mark, n)
    ensures Utf8Valid(Header(mark, n))
    ensures TrimEol(Header(mark, n)) == [mark] + Digits(n)
    ensures ParseOrZero(([mark] + Digits(n))[1..]) == n
  {
    var d := Digits(n);
    var h := Header(mark, n);
    var text := [mark] + d + [13];
    assert h == text + [LF];
    assert LF !in text by {
      forall i | 0 <= i < |d| ensures d[i] != LF { assert IsDigit(d[i]); }
    }
    FirstLineOf(text, more);
    assert h + more == text + [LF] + more;
    forall i | 0 <= i < |h| ensures h[i] < 0x80 {
      if 1 <= i < |d| + 1 { assert h[i] == d[i - 1] && IsDigit(d[i - 1]); }
    }
    AsciiIsUtf8(h);
    var bare := [mark] + d;
    assert h[..|h| - 2] == bare && h[|h| - 2..] == CRLF;
    assert bare[|bare| - 1] == d[|d| - 1] && IsDigit(d[|d| - 1]);
    assert TrimCrLf(bare) == bare;
    assert bare[1..] == d;
    ParseOfDigits(n);
  }

  lemma BulkReadsBack(arg: Bytes, more: Bytes)
    requires |arg| + 2 < 0x8000_0000_0000_0000
    ensures ReadBulk(EncodeBulk(arg) + more) == Got(Bulk(|arg|, arg + CRLF), |EncodeBulk(arg)|)
  {
    hide TrimEol, ParseOrZero, Utf8Valid, FirstLine;
    var header, body := Header(DOLLAR, |arg|), arg + CRLF + more;
    assert EncodeBulk(arg) + more == header + body;
    HeaderReadsBack(DOLLAR, |arg|, body);
    Seam(header, body);
    assert BulkLength(header) == |arg|;
    assert body[..|arg| + 2] == arg + CRLF;
  }

  lemma BulksStep(t: Codec, i: nat, count: nat, name: string, raw: Bytes, arg: Bytes, more: Bytes)
    requires i < count && |arg| + 2 < 0x8000_0000_0000_0000
    ensures ReadBulks(t, i, count, name, raw, EncodeBulk(arg) + more)
            == ReadBulks(t, i + 1, count, if i == 0 then t.Lossy8(arg) else name, raw + EncodeBulk(arg), more)
  {
    BulkReadsBack(arg, more);
    Seam(EncodeBulk(arg), more);
    Seam(arg, CRLF);
  }

  lemma {:induction false} BulksReadBack(t: Codec, i: nat, name: string, raw: Bytes, args: seq<Bytes>, more: Bytes)
    requires forall j | 0 <= j < |args| :: |args[j]| + 2 < 0x8000_0000_0000_0000
    ensures ReadBulks(t, i, i + |args|, name, raw, EncodeBulks(args) + more)
            == Done(if i == 0 && args != [] then t.Lossy8(args[0]) else name, raw + EncodeBulks(args), more)
    decreases |args|
  {
    hide ReadBulk, EncodeBulk;
    if args == [] {
      assert EncodeBulks(args) + more == more;
      assert raw + EncodeBulks(args) == raw;
    } else {
      var first, rest := EncodeBulk(args[0]), EncodeBulks(args[1..]);
      Assoc(first, rest, more);
      Assoc(raw, first, rest);
      BulksStep(t, i, i + |args|, name, raw, args[0], rest + more);
      BulksReadBack(t, i + 1, if i == 0 then t.Lossy8(args[0]) else name, raw + first, args[1..], more);
    }
  }

  /** A line in the place of a bulk header that does not begin with `$` stands for a length of zero: two bytes are
      taken for the payload, whatever they are. */
  lemma NoHeaderTakesTwoBytes(text: Bytes, two: Bytes, more: Bytes)
    requires text != [] && text[0] != DOLLAR && LF !in text && Utf8Valid(text + CRLF) && |two| == 2
    ensures ReadBulk(text + CRLF + two + more) == Got(Bulk(0, two), |text| + 4)
  {
    hide Utf8Valid, FirstLine, BulkLength, ReadBulk;
    var line := text + CRLF;
    HeaderlessLine(text, two + more);
    Assoc(line, two, more);
    Seam(line, two + more);
    Seam(two, more);
    TwoByteBulk(line + two + more, line);
  }

  lemma TwoByteBulk(s: Bytes, line: Bytes)
    requires FirstLine(s) == line && line != [] && Utf8Valid(line) && BulkLength(line) == 0 && |s| >= |line| + 2
    ensures ReadBulk(s) == Got(Bulk(0, s[|line|..][..2]), |line| + 2)
  {
    hide Utf8Valid, FirstLine, BulkLength;
  }

  lemma HeaderlessLine(text: Bytes, more: Bytes)
    requires text != [] && text[0] != DOLLAR && LF !in text
    ensures FirstLine(text + CRLF + more) == text + CRLF && BulkLength(text + CRLF) == 0
  {
    hide TrimEol, ParseOrZero, FirstLine;
    assert text + CRLF == text + [13] + [LF];
    FirstLineOf(text + [13], more);
    TrimsOneLineEnd(text);
  }

  /** Reading undoes encoding, whatever bytes the arguments hold and whatever follows. */
  lemma CommandReadsBack(t: Codec, args: seq<Bytes>, more: Bytes)
    requires Encodable(args)
    ensures ReadCommand(t, EncodeCommand(args) + more)
            == Got(Command(NameOf(t, args), EncodeCommand(args)), |EncodeCommand(args)|)
  {
    hide ReadBulks, TrimEol, ParseOrZero, Utf8Valid, EncodeBulks;
    var header, bulks := Header(STAR, |args|), EncodeBulks(args);
    Assoc(header, bulks, more);
    HeaderReadsBack(STAR, |args|, bulks + more);
    Seam(header, bulks + more);
    BulksReadBack(t, 0, "", header, args, more);
  }

  /** An inline command is its own line, ended by CRLF or by LF alone, and its name is the first word of the text:
      what stands between leading whitespace and the next whitespace or the end. */
  lemma InlineReadsBack(t: Codec, text: Bytes, end: Bytes, pad: string, word: string, rest: string, more: Bytes)
    requires text != [] && text[0] != STAR && LF !in text && Utf8Valid(text + end)
    requires end == CRLF || (end == [LF] && text[|text| - 1] != 13)
    requires t.Lossy8(text) == pad + word + rest
    requires AllDropped(pad, IsWhitespace) && NoneDropped(word, IsWhitespace)
    requires (rest == [] || IsWhitespace(rest[0])) && (word == [] ==> rest == [])
    ensures ReadCommand(t, text + end + more) == Got(Command(word, text + end), |text| + |end|)
  {
    hide Utf8Valid, TrimEol, ReadBulks, FirstWord;
    FirstWordIs(pad, word, rest);
    if end == CRLF {
      assert text + CRLF == text + [13] + [LF];
      FirstLineOf(text + [13], more);
      TrimsOneLineEnd(text);
    } else {
      FirstLineOf(text, more);
      TrimsBareLf(text);
    }
    Seam(text + end, more);
  }

  /** An empty line is an empty command. */
  lemma EmptyLineReads(t: Codec, end: Bytes, more: Bytes)
    requires end == CRLF || end == [LF]
    ensures ReadCommand(t, end + more) == Got(Command("", end), |end|)
  {
    hide ReadBulks;
    if end == CRLF {
      FirstLineOf([13], more);
      assert [13] + [LF] == CRLF;
      TrimsOneLineEnd([]);
      assert [] + CRLF == CRLF;
    } else {
      FirstLineOf([], more);
      assert [] + [LF] == [LF];
      TrimsBareLf([]);
    }
    AsciiIsUtf8(end);
    Seam(end, more);
  }

  lemma TrimsBareLf(text: Bytes)
    requires LF !in text && (text == [] || text[|text| - 1] != 13)
    ensures TrimEol(text + [LF]) == text
  {
    var line := text + [LF];
    assert |line| >= 2 ==> line[|line| - 2..][0] == text[|text| - 1];
    assert TrimCrLf(line) == line && line[..|line| - 1] == text;
    if text != [] {
      assert text[|text| - 1] in text;
    }
    assert TrimLf(text) == text;
  }

  lemma TrimsOneLineEnd(text: Bytes)
    requires LF !in text
    ensures TrimEol(text + CRLF) == text
  {
    var line := text + CRLF;
    assert line[|line| - 2..] == CRLF && line[..|line| - 2] == text;
    if text != [] {
      assert text[|text| - 1] in text;
      assert |text| >= 2 ==> text[|text| - 2..][1] == text[|text| - 1];
    }
    assert TrimCrLf(text) == text;
    assert TrimLf(text) == text;
  }

  // ---------- the session ----------

  function QueryRequest(ip: string, query: string): AccessRequest {
    NewRequest(ip, "unknown", DbType.Redis, "redis").(query := Some(query))
  }

  /** Evaluation 0 of a session is the connection, evaluation k + 1 its k-th command. */
  function Inspect(t: Codec, policy: Policy, ip: string, k: nat, command: Command): Decision {
    var name := t.upper(command.name);
    var dangerous := name in DANGEROUS_COMMANDS;
    var result := policy(k + 1, QueryRequest(ip, name));
    var blocked := !result.allowed || dangerous;
    var reason := if dangerous && result.allowed then LISTED + name else result.reason;
    var event := AuditEvent(if blocked then QueryBlocked else QueryExecuted, ip, "unknown", "redis", "redis",
                            Some(name), !blocked, reason, result.matchedRule);
    if blocked then Blocked(event, DENY_RESP) else Executed(event, command.raw)
  }

  function Inspection(t: Codec, policy: Policy, ip: string): Inspector<Command> {
    (k: nat, command: Command) => Inspect(t, policy, ip, k, command)
  }

  function Connection(policy: Policy, ip: string): AccessResult {
    policy(0, NewRequest(ip, "unknown", DbType.Redis, "redis"))
  }

  function Opening(policy: Policy, ip: string): Action {
    Log(ConnectionEvent(Connection(policy, ip), ip, "unknown", "redis", "redis"))
  }

  function Judgements(t: Codec, policy: Policy, ip: string, input: Bytes): seq<Decision> {
    Decisions(Inspection(t, policy, ip), 0, Messages(Frames(CommandFramer(t), input)))
  }

  /** What the inspecting task does with a client's bytes. */
  function Judged(t: Codec, policy: Policy, ip: string, input: Bytes): seq<Action> {
    Program(Judgements(t, policy, ip, input))
  }

  /** Everything one connection does for a given input. */
  function Session(t: Codec, policy: Policy, ip: string, input: Bytes): seq<Action> {
    [Opening(policy, ip)] + if Connection(policy, ip).allowed then Judged(t, policy, ip, input) else []
  }

  method HandleConnection(t: Codec, policy: Policy, ip: string, client: Reader, out: Channels)
    modifies client, out
    ensures out.trace == old(out.trace) + Session(t, policy, ip, old(client.rest))
  {
    var result := policy(0, NewRequest(ip, "unknown", DbType.Redis, "redis"));
    ghost var before, input := out.trace, client.rest;
    out.Record(ConnectionEvent(result, ip, "unknown", "redis", "redis"));
    if result.allowed {
      TunnelWithInspection(t, policy, ip, client, out);
      Assoc(before, [Opening(policy, ip)], Judged(t, policy, ip, input));
    }
  }

  lemma JudgedUnfolds(t: Codec, policy: Policy, ip: string, input: Bytes)
    ensures Judged(t, policy, ip, input)
            == Program(Decisions(Inspection(t, policy, ip), 0, Messages(Frames(CommandFramer(t), input))))
  {
    hide Program, Decisions, Frames;
  }

  /** The task that reads commands; it ends at the end of the stream or at a malformed header. */
  method TunnelWithInspection(t: Codec, policy: Policy, ip: string, client: Reader, out: Channels)
    modifies client, out
    ensures out.trace == old(out.trace) + Judged(t, policy, ip, old(client.rest))
  {
    hide *;
    ghost var inspect, before := Inspection(t, policy, ip), out.trace;
    ghost var all := Messages(Frames(CommandFramer(t), client.rest));
    ServedNone(inspect, all, before);
    JudgedUnfolds(t, policy, ip, client.rest);
    var k := 0;
    while true
      invariant Served(inspect, all, k, before, out.trace)
      invariant k <= |all| && all[k..] == Messages(Frames(CommandFramer(t), client.rest))
      decreases |all| - k
    {
      NextCommand(t, client.rest);
      var r := ReadRespCommand(t, client);
      if r.None? {
        ServedAll(inspect, all, before, out.trace);
        return;
      }
      assert r.value == all[k..][0] == all[k];
      ServedOneMore(inspect, all, k, before, out.trace);
      HandleCommand(t, policy, ip, k, r.value, out);
      assert all[k..][1..] == all[k + 1..];
      k := k + 1;
    }
  }

  /** The loop body: judge one command, log it, then refuse or forward it. */
  method HandleCommand(t: Codec, policy: Policy, ip: string, k: nat, command: Command, out: Channels)
    modifies out
    ensures out.trace == old(out.trace) + Actions(Inspection(t, policy, ip)(k, command))
  {
    var name := t.upper(command.name);
    var dangerous := name in DANGEROUS_COMMANDS;
    var result := policy(k + 1, QueryRequest(ip, name));
    var blocked := !result.allowed || dangerous;
    var reason := if dangerous && result.allowed then LISTED + name else result.reason;
    out.Record(AuditEvent(if blocked then QueryBlocked else QueryExecuted, ip, "unknown", "redis", "redis",
                          Some(name), !blocked, if blocked then reason else result.reason, result.matchedRule));
    if blocked {
      out.Reply(Ascii("-ERR Access denied by ganji-DAC\r\n"));
    } else {
      out.Forward(command.raw);
    }
  }

  lemma NextCommand(t: Codec, s: Bytes)
    ensures var r := ReadCommand(t, s);
            Messages(Frames(CommandFramer(t), s))
            == if r.Stop? then [] else [r.msg] + Messages(Frames(CommandFramer(t), s[r.used..]))
  {
    assert CommandFramer(t)(s) == ReadCommand(t, s);
  }

  // ---------- what a whole session does ----------

  /** The frames of a stream of encoded commands. */
  function EncodedFrames(t: Codec, commands: seq<seq<Bytes>>): (f: seq<Frame<Command>>)
    ensures |f| == |commands|
  {
    seq(|commands|, i requires 0 <= i < |commands| =>
        Frame(Command(NameOf(t, commands[i]), EncodeCommand(commands[i])), EncodeCommand(commands[i])))
  }

  /** The verdicts of a session that reads `commands`, in terms of the commands alone. */
  function Verdicts(t: Codec, policy: Policy, ip: string, commands: seq<seq<Bytes>>): (ds: seq<Decision>)
    ensures |ds| == |commands|
  {
    seq(|commands|, i requires 0 <= i < |commands| =>
        Inspect(t, policy, ip, i, Command(NameOf(t, commands[i]), EncodeCommand(commands[i]))))
  }

  function AllEncoded(commands: seq<seq<Bytes>>): Bytes {
    Flatten(seq(|commands|, i requires 0 <= i < |commands| => EncodeCommand(commands[i])))
  }

  /** A client that sends any list of commands gets them read back as sent, whatever the payloads. */
  lemma StreamReadsBack(t: Codec, commands: seq<seq<Bytes>>)
    requires forall c | c in commands :: Encodable(c)
    ensures Frames(CommandFramer(t), AllEncoded(commands)) == EncodedFrames(t, commands)
    ensures Tail(CommandFramer(t), AllEncoded(commands)) == []
  {
    var frames := EncodedFrames(t, commands);
    forall i | 0 <= i < |frames| ensures ReadsAs(CommandFramer(t), frames[i]) {
      assert commands[i] in commands;
      forall more: Bytes
        ensures CommandFramer(t)(frames[i].wire + more) == Got(frames[i].msg, |frames[i].wire|)
      {
        CommandReadsBack(t, commands[i], more);
      }
    }
    assert Wires(frames) == seq(|commands|, i requires 0 <= i < |commands| => EncodeCommand(commands[i]));
    FramesOfConcat(CommandFramer(t), frames, []);
    assert AllEncoded(commands) + [] == AllEncoded(commands);
    assert ReadCommand(t, []) == Stop;
    assert frames + [] == frames;
  }

  /** Reading `commands` off the wire and judging them is judging `commands`. */
  lemma SessionOfCommands(t: Codec, policy: Policy, ip: string, commands: seq<seq<Bytes>>)
    requires forall c | c in commands :: Encodable(c)
    requires Connection(policy, ip).allowed
    ensures Session(t, policy, ip, AllEncoded(commands))
            == [Opening(policy, ip)] + Program(Verdicts(t, policy, ip, commands))
  {
    StreamReadsBack(t, commands);
    assert Decisions(Inspection(t, policy, ip), 0, Messages(EncodedFrames(t, commands)))
           == Verdicts(t, policy, ip, commands);
  }

  /** What the log and the wires hold for a list of judged commands. */
  ghost predicate Accounted(t: Codec, commands: seq<seq<Bytes>>, ds: seq<Decision>, log: seq<AuditEvent>,
                            up: seq<Bytes>, down: seq<Bytes>)
    requires |ds| == |commands|
  {
    && |log| == |commands|
    && (forall i | 0 <= i < |commands| ::
          log[i].query == Some(t.upper(NameOf(t, commands[i]))) && (log[i].allowed <==> !ds[i].Blocked?))
    && up == Unblocked(commands, ds)
    && (forall i | 0 <= i < |down| :: down[i] == DENY_RESP)
    && |up| + |down| == |commands|
  }

  /** The encodings of the commands that were not blocked, in order. */
  function Unblocked(commands: seq<seq<Bytes>>, ds: seq<Decision>): seq<Bytes>
    requires |ds| == |commands|
  {
    if commands == [] then []
    else (if ds[0].Blocked? then [] else [EncodeCommand(commands[0])]) + Unblocked(commands[1..], ds[1..])
  }

  /** The whole session: after the connection event, one event per command in order; upstream gets exactly the
      encodings of the commands that are not blocked; the client gets one `DENY_RESP` for each of the others. */
  lemma WholeSession(t: Codec, policy: Policy, ip: string, commands: seq<seq<Bytes>>)
    requires forall c | c in commands :: Encodable(c)
    requires Connection(policy, ip).allowed
    ensures var trace := Session(t, policy, ip, AllEncoded(commands));
            var ds := Verdicts(t, policy, ip, commands);
            Logs(trace) != [] && Accounted(t, commands, ds, Logs(trace)[1..], Ups(trace), Downs(trace))
  {
    var ds := Verdicts(t, policy, ip, commands);
    SessionOfCommands(t, policy, ip, commands);
    OpeningProjects(Opening(policy, ip), ds);
    VerdictsAccounted(t, policy, ip, commands);
  }

  lemma OpeningProjects(open: Action, ds: seq<Decision>)
    requires open.Log?
    ensures var trace := [open] + Program(ds);
            Logs(trace) == [open.event] + Events(ds) && Ups(trace) == Forwarded(ds) && Downs(trace) == Replies(ds)
  {
    ProjectionsAppend([open], Program(ds));
    SingleProjects(open);
    ProgramProjects(ds);
  }

  lemma VerdictsAccounted(t: Codec, policy: Policy, ip: string, commands: seq<seq<Bytes>>)
    ensures var ds := Verdicts(t, policy, ip, commands);
            Accounted(t, commands, ds, Events(ds), Forwarded(ds), Replies(ds))
  {
    var ds := Verdicts(t, policy, ip, commands);
    InspectedCounts(ds);
    ForwardedIsUnblocked(commands, ds);
  }

  lemma {:induction false} ForwardedIsUnblocked(commands: seq<seq<Bytes>>, ds: seq<Decision>)
    requires |ds| == |commands|
    requires forall i | 0 <= i < |ds| :: !ds[i].Blocked? ==> ds[i].raw == EncodeCommand(commands[i])
    ensures Forwarded(ds) == Unblocked(commands, ds)
  {
    if ds != [] {
      ForwardedIsUnblocked(commands[1..], ds[1..]);
    }
  }

  /** With every message inspected, events match messages one to one, and every message is forwarded or refused. */
  lemma {:induction false} InspectedCounts(ds: seq<Decision>)
    requires forall i | 0 <= i < |ds| :: !ds[i].Pass? && (ds[i].Blocked? ==> ds[i].reply == DENY_RESP)
    ensures |Events(ds)| == |ds| && forall i | 0 <= i < |ds| :: Events(ds)[i] == ds[i].event
    ensures |Forwarded(ds)| + |Replies(ds)| == |ds|
    ensures forall i | 0 <= i < |Replies(ds)| :: Replies(ds)[i] == DENY_RESP
  {
    if ds != [] {
      InspectedCounts(ds[1..]);
    }
  }

  /** The command goes on, byte for byte, exactly when the policy allows it and its name, upper-cased, is not on
      the list; the event says which name it was, what was decided and why, and for a listed name that the policy
      would have let through, that it was the list; a refusal is one `DENY_RESP`. */
  ghost predicate JudgedAs(ip: string, name: string, raw: Bytes, result: AccessResult, d: Decision) {
    && !d.Pass?
    && (d.Executed? <==> result.allowed && name != "FLUSHALL" && name != "FLUSHDB" && name != "CONFIG" && name != "DEBUG"
                         && name != "SHUTDOWN" && name != "SLAVEOF" && name != "REPLICAOF")
    && d.event == AuditEvent(if d.Executed? then QueryExecuted else QueryBlocked, ip, "unknown", "redis", "redis",
                             Some(name), d.Executed?,
                             if d.Blocked? && result.allowed then "위험 커맨드 차단: " + name else result.reason,
                             result.matchedRule)
    && (d.Executed? ==> d.raw == raw)
    && (d.Blocked? ==> d.reply == DENY_RESP)
  }

  /** The refusal is one RESP error: it opens with a minus, and its only line end is its own. */
  lemma DenyRespIsOneError(more: Bytes)
    ensures DENY_RESP[0] == 45 && DENY_RESP[|DENY_RESP| - 2..] == CRLF
    ensures FirstLine(DENY_RESP + more) == DENY_RESP
  {
    var text := DENY_RESP[..|DENY_RESP| - 1];
    assert LF !in text;
    assert DENY_RESP == text + [LF];
    FirstLineOf(text, more);
  }

  lemma InspectedIs(t: Codec, policy: Policy, ip: string, k: nat, command: Command)
    ensures var name := t.upper(command.name);
            JudgedAs(ip, name, command.raw,
                     policy(k + 1, AccessRequest(ip, "unknown", DbType.Redis, "redis", Some(name), None)),
                     Inspect(t, policy, ip, k, command))
  {
  }

  /** On arbitrary client bytes: every byte is part of one command, in order, or of one unfinished tail; each
      command is judged by policy and list, logged, and forwarded byte for byte or answered with one
      `DENY_RESP`. */
  lemma SessionConserves(t: Codec, policy: Policy, ip: string, input: Bytes)
    ensures var frames := Frames(CommandFramer(t), input);
            var ds := Judgements(t, policy, ip, input);
            && Flatten(Wires(frames)) + Tail(CommandFramer(t), input) == input
            && CommandFramer(t)(Tail(CommandFramer(t), input)).Stop?
            && |ds| == |frames|
            && (forall i | 0 <= i < |frames| ::
                  var name := t.upper(frames[i].msg.name);
                  && frames[i].wire != [] && frames[i].msg.raw == frames[i].wire
                  && JudgedAs(ip, name, frames[i].wire,
                              policy(i + 1, AccessRequest(ip, "unknown", DbType.Redis, "redis", Some(name), None)),
                              ds[i]))
            && Ups(Judged(t, policy, ip, input)) == Forwarded(ds)
            && Logs(Judged(t, policy, ip, input)) == Events(ds)
            && Downs(Judged(t, policy, ip, input)) == Replies(ds)
            && |Ups(Judged(t, policy, ip, input))| + |Downs(Judged(t, policy, ip, input))| == |frames|
  {
    hide ReadCommand, Tail, Frames, Inspect;
    var ds, frames := Judgements(t, policy, ip, input), Frames(CommandFramer(t), input);
    FramesConserve(CommandFramer(t), input);
    CommandFramerProgresses(t);
    TailStops(CommandFramer(t), input);
    RawIsWire(t, input);
    ProgramProjects(ds);
    forall i | 0 <= i < |frames|
      ensures var name := t.upper(frames[i].msg.name);
              JudgedAs(ip, name, frames[i].wire,
                       policy(i + 1, AccessRequest(ip, "unknown", DbType.Redis, "redis", Some(name), None)), ds[i])
    {
      InspectedIs(t, policy, ip, i, frames[i].msg);
    }
    InspectedCounts(ds);
  }

  lemma JudgedPerFrame(t: Codec, policy: Policy, ip: string, input: Bytes)
    ensures |Judgements(t, policy, ip, input)| == |Frames(CommandFramer(t), input)|
  {
    hide Frames;
  }

  lemma ForwardedWasGranted(t: Codec, policy: Policy, ip: string, input: Bytes, i: nat)
    requires i < |Judgements(t, policy, ip, input)| && !Judgements(t, policy, ip, input)[i].Blocked?
    ensures |Judgements(t, policy, ip, input)| == |Frames(CommandFramer(t), input)|
    ensures var d, frame := Judgements(t, policy, ip, input)[i], Frames(CommandFramer(t), input)[i];
            var name := t.upper(frame.msg.name);
            && d.Executed? && d.raw == frame.wire == frame.msg.raw && d.event.query == Some(name) && d.event.allowed
            && policy(i + 1, QueryRequest(ip, name)).allowed && name !in DANGEROUS_COMMANDS
  {
    hide Frames, ReadCommand;
    RawIsWire(t, input);
  }

  /** A connection begins with the event of its evaluation; a denied one goes no further. */
  lemma ConnectionIsLogged(t: Codec, policy: Policy, ip: string, input: Bytes)
    ensures var result := policy(0, AccessRequest(ip, "unknown", DbType.Redis, "redis", None, None));
            var trace := Session(t, policy, ip, input);
            && trace != []
            && trace[0] == Log(AuditEvent(if result.allowed then ConnectionAllowed else ConnectionDenied, ip, "unknown",
                                          "redis", "redis", None, result.allowed, result.reason, result.matchedRule))
            && trace[1..] == if result.allowed then Judged(t, policy, ip, input) else []
  {
  }

  lemma {:induction false} RawIsWire(t: Codec, s: Bytes)
    ensures forall i | 0 <= i < |Frames(CommandFramer(t), s)| ::
              Frames(CommandFramer(t), s)[i].msg.raw == Frames(CommandFramer(t), s)[i].wire
    decreases |s|
  {
    hide ReadCommand;
    var r := ReadCommand(t, s);
    assert CommandFramer(t)(s) == r;
    if r.Got? {
      RawIsWhatWasRead(t, s);
      RawIsWire(t, s[r.used..]);
    }
  }

  // ---------- what the server reads ----------

  /** A bulk string with something behind it is read the same whatever that is. */
  lemma BulkStands(s: Bytes, x: Bytes)
    requires ReadBulk(s).Got? && ReadBulk(s).used < |s| && s[..ReadBulk(s).used] <= x
    ensures ReadBulk(x) == ReadBulk(s)
  {
    hide BulkLength, Utf8Valid, FirstLine;
    var header, used := FirstLine(s), ReadBulk(s).used;
    assert header == s[..|header|] == x[..|header|];
    LineStands(s, x);
    assert x[..used] == s[..used];
    assert x[|header|..][..used - |header|] == x[..used][|header|..] == s[..used][|header|..]
        == s[|header|..][..used - |header|];
  }

  /** `x` agrees with s on all but the last k bytes of s. */
  predicate AgreesBut(s: Bytes, k: nat, x: Bytes) {
    k <= |s| && s[..|s| - k] <= x
  }

  lemma BulksAtEnd(t: Codec, i: nat, count: nat, name: string, raw: Bytes, s: Bytes)
    requires i >= count
    ensures ReadBulks(t, i, count, name, raw, s) == Done(name, raw, s)
  {
  }

  /** An array read that succeeds takes one more bulk string, and then goes on. */
  lemma BulksGoOn(t: Codec, i: nat, count: nat, name: string, raw: Bytes, s: Bytes)
    requires i < count
    ensures var r := ReadBulks(t, i, count, name, raw, s);
            match ReadBulk(s)
            case Stop => r == Failed
            case Got(bulk, used) =>
              if i == 0 && bulk.len > |bulk.data| then r == Failed
              else r == ReadBulks(t, i + 1, count, if i == 0 then t.Lossy8(bulk.data[..bulk.len]) else name,
                                  raw + s[..used], s[used..])
  {
    hide ReadBulk;
  }

  lemma {:induction false} BulksStand(t: Codec, i: nat, count: nat, name: string, raw: Bytes, s: Bytes, x: Bytes)
    requires ReadBulks(t, i, count, name, raw, s).Done? && ReadBulks(t, i, count, name, raw, s).rest != []
    requires AgreesBut(s, |ReadBulks(t, i, count, name, raw, s).rest|, x)
    ensures var r := ReadBulks(t, i, count, name, raw, s);
            ReadBulks(t, i, count, name, raw, x) == Done(r.name, r.raw, x[|s| - |r.rest|..])
    decreases |s|
  {
    hide ReadBulk, ReadBulks;
    var r := ReadBulks(t, i, count, name, raw, s);
    if i < count {
      BulksGoOn(t, i, count, name, raw, s);
      BulksGoOn(t, i, count, name, raw, x);
      var bulk, used := ReadBulk(s).msg, ReadBulk(s).used;
      var name' := if i == 0 then t.Lossy8(bulk.data[..bulk.len]) else name;
      var k := |s| - |r.rest|;
      assert used <= k by {
        BulksConserveLength(t, i + 1, count, name', raw + s[..used], s[used..]);
      }
      Slices(s, x, used, k);
      BulkStands(s, x);
      BulksStand(t, i + 1, count, name', raw + s[..used], s[used..], x[used..]);
    } else {
      BulksAtEnd(t, i, count, name, raw, s);
      BulksAtEnd(t, i, count, name, raw, x);
      assert x[0..] == x;
    }
  }

  lemma BulksConserveLength(t: Codec, i: nat, count: nat, name: string, raw: Bytes, s: Bytes)
    ensures var r := ReadBulks(t, i, count, name, raw, s);
            r.Done? ==> |r.rest| <= |s|
  {
    hide ReadBulks;
  }

  lemma Slices(s: Bytes, x: Bytes, i: nat, k: nat)
    requires i <= k <= |s| && s[..k] <= x
    ensures s[..i] == x[..i] && s[..i] <= x
    ensures s[i..][..k - i] <= x[i..] && x[i..][k - i..] == x[k..]
  {
    assert s[..i] == s[..k][..i] == x[..k][..i] == x[..i];
    assert s[i..][..k - i] == s[..k][i..] == x[..k][i..] == x[i..][..k - i];
  }

  /** A command with something behind it is a frame, whatever follows; one at the very end of the input is read
      back when nothing follows. */
  lemma CommandStands(t: Codec, s: Bytes)
    requires ReadCommand(t, s).Got?
    ensures var r := ReadCommand(t, s);
            && (r.used < |s| ==> ReadsAs(CommandFramer(t), Frame(r.msg, s[..r.used])))
            && StandsAs(CommandFramer(t), r.msg, s[..r.used])
  {
    hide ReadCommand;
    var r := ReadCommand(t, s);
    var wire := s[..r.used];
    if r.used < |s| {
      forall more: Bytes ensures CommandFramer(t)(wire + more) == Got(r.msg, |wire|) {
        CommandStandsBefore(t, s, wire, more);
      }
      assert wire + [] == wire;
    } else {
      assert wire == s;
    }
  }

  lemma CommandStandsBefore(t: Codec, s: Bytes, wire: Bytes, more: Bytes)
    requires ReadCommand(t, s).Got? && ReadCommand(t, s).used < |s| && wire == s[..ReadCommand(t, s).used]
    ensures ReadCommand(t, wire + more) == ReadCommand(t, s)
  {
    hide ReadBulks, TrimEol, Utf8Valid, ParseOrZero, FirstLine;
    var line, x, used := FirstLine(s), wire + more, ReadCommand(t, s).used;
    var text := TrimEol(line);
    if text != [] && text[0] == STAR {
      var count := ParseOrZero(text[1..]);
      var body, d := s[|line|..], ReadBulks(t, 0, count, "", line, s[|line|..]);
      var k := used - |line|;
      assert k == |body| - |d.rest|;
      assert line == s[..|line|];
      assert body[..k] == s[..used][|line|..] == x[..used][|line|..] == x[|line|..][..k];
      assert line == s[..used][..|line|] == x[..used][..|line|] == x[..|line|];
      LineStands(s, x);
      BulksStand(t, 0, count, "", line, body, x[|line|..]);
    } else {
      LineStands(s, x);
    }
  }

  /** Frames that can be put one after the other: the last one may need the end of the stream behind it. */
  ghost predicate Chained<M>(f: Framer<M>, frames: seq<Frame<M>>) {
    frames != [] ==>
      && StandsAs(f, frames[0].msg, frames[0].wire)
      && (|frames| > 1 ==> ReadsAs(f, frames[0]))
      && Chained(f, frames[1..])
  }

  lemma {:induction false} ChainReadsBack<M>(f: Framer<M>, frames: seq<Frame<M>>)
    requires Chained(f, frames)
    ensures Frames(f, Flatten(Wires(frames))) == frames
  {
    if frames != [] {
      var head, rest := frames[0], frames[1..];
      assert frames == [head] + rest;
      WiresCons(head, rest);
      ChainReadsBack(f, rest);
      if rest == [] {
        assert Wires(rest) == [];
        var wire := head.wire;
        assert wire + [] == wire && wire[..|wire|] == wire && wire[|wire|..] == [];
        assert Frames(f, wire) == [Frame(head.msg, wire)] + Frames(f, []);
      } else {
        FramesOfOne(f, head, Flatten(Wires(rest)));
      }
    }
  }

  lemma {:induction false} CommandsChain(t: Codec, s: Bytes)
    ensures Chained(CommandFramer(t), Frames(CommandFramer(t), s))
    decreases |s|
  {
    hide ReadCommand, StandsAs, ReadsAs;
    var r, f := ReadCommand(t, s), CommandFramer(t);
    assert f(s) == r;
    if r.Got? {
      CommandStands(t, s);
      CommandsChain(t, s[r.used..]);
      var rest := Frames(f, s[r.used..]);
      assert Frames(f, s) == [Frame(r.msg, s[..r.used])] + rest;
      assert rest != [] ==> s[r.used..] != [];
    }
  }

  /** The commands that were not blocked. */
  function KeptFrames(frames: seq<Frame<Command>>, ds: seq<Decision>): seq<Frame<Command>>
    requires |frames| == |ds|
  {
    if ds == [] then [] else (if ds[0].Blocked? then [] else [frames[0]]) + KeptFrames(frames[1..], ds[1..])
  }

  lemma {:induction false} KeptWires(frames: seq<Frame<Command>>, ds: seq<Decision>)
    requires |frames| == |ds|
    requires forall i | 0 <= i < |ds| && !ds[i].Blocked? :: ds[i].raw == frames[i].wire
    ensures Wires(KeptFrames(frames, ds)) == Forwarded(ds)
  {
    if ds != [] {
      KeptWires(frames[1..], ds[1..]);
      var rest := KeptFrames(frames[1..], ds[1..]);
      assert Wires([frames[0]] + rest) == [frames[0].wire] + Wires(rest);
      assert [] + rest == rest;
    }
  }

  lemma {:induction false} KeptChain(f: Framer<Command>, frames: seq<Frame<Command>>, ds: seq<Decision>)
    requires |frames| == |ds| && Chained(f, frames)
    ensures Chained(f, KeptFrames(frames, ds))
    ensures |KeptFrames(frames, ds)| <= |frames|
  {
    hide StandsAs, ReadsAs;
    if ds != [] {
      KeptChain(f, frames[1..], ds[1..]);
      var rest := KeptFrames(frames[1..], ds[1..]);
      if ds[0].Blocked? {
        assert KeptFrames(frames, ds) == rest;
      } else {
        var all := [frames[0]] + rest;
        assert KeptFrames(frames, ds) == all && all[1..] == rest;
      }
    }
  }

  /** Whoever reads what was sent upstream as the proxy reads RESP finds exactly the commands that were not
      blocked, on arbitrary client bytes: leaving some out does not shift the others. */
  lemma ServerReadsTheUnblocked(t: Codec, policy: Policy, ip: string, input: Bytes)
    ensures var ds := Judgements(t, policy, ip, input);
            Frames(CommandFramer(t), Flatten(Ups(Judged(t, policy, ip, input))))
            == KeptFrames(Frames(CommandFramer(t), input), ds)
  {
    hide Frames, Chained, ReadCommand;
    var ds, frames := Judgements(t, policy, ip, input), Frames(CommandFramer(t), input);
    SessionConserves(t, policy, ip, input);
    CommandsChain(t, input);
    KeptChain(CommandFramer(t), frames, ds);
    KeptWires(frames, ds);
    ChainReadsBack(CommandFramer(t), KeptFrames(frames, ds));
  }

  lemma {:induction false} KeptComesFrom(frames: seq<Frame<Command>>, ds: seq<Decision>, frame: Frame<Command>)
    requires |frames| == |ds| && frame in KeptFrames(frames, ds)
    ensures exists i :: 0 <= i < |ds| && !ds[i].Blocked? && frames[i] == frame
  {
    if !ds[0].Blocked? && frames[0] == frame {
    } else {
      KeptComesFrom(frames[1..], ds[1..], frame);
      var i :| 0 <= i < |ds[1..]| && !ds[1..][i].Blocked? && frames[1..][i] == frame;
      assert frames[i + 1] == frame && ds[i + 1] == ds[1..][i];
    }
  }

  // ---------- a server that takes well-formed arrays only ----------

  /** The mark, a number in its shortest form, CRLF. */
  function StrictHeader(mark: byte, s: Bytes): (n: Option<nat>)
    ensures n.Some? ==> n.value < U64 && FirstLine(s) == Header(mark, n.value)
  {
    var line := FirstLine(s);
    if |line| < 4 then None
    else
      var n := ParseOrZero(line[1..|line| - 2]);
      if line == Header(mark, n) then Some(n) else None
  }

  /** `$`, the length, as many bytes, CRLF. */
  function StrictBulk(s: Bytes): (r: Read<Bytes>)
    ensures Sound(r, s)
  {
    match StrictHeader(DOLLAR, s)
    case None => Stop
    case Some(n) =>
      var body := s[|FirstLine(s)|..];
      if n + 2 >= 0x8000_0000_0000_0000 || n + 2 > |body| || body[n..n + 2] != CRLF then Stop
      else Got(body[..n], |FirstLine(s)| + n + 2)
  }

  function StrictBulks(count: nat, s: Bytes): (r: Option<(seq<Bytes>, Bytes)>)
    ensures r.Some? ==> |r.value.0| == count && |r.value.1| <= |s|
  {
    if count == 0 then Some(([], s))
    else
      match StrictBulk(s)
      case Stop => None
      case Got(arg, used) =>
        match StrictBulks(count - 1, s[used..])
        case None => None
        case Some((args, rest)) => Some(([arg] + args, rest))
  }

  /** The arguments of the array at the head of s; anything else is an error. */
  function StrictCommand(s: Bytes): (r: Read<seq<Bytes>>)
    ensures Sound(r, s)
  {
    match StrictHeader(STAR, s)
    case None => Stop
    case Some(n) =>
      match StrictBulks(n, s[|FirstLine(s)|..])
      case None => Stop
      case Some((args, rest)) => Got(args, |s| - |rest|)
  }

  lemma CutBulk(line: Bytes, body: Bytes, n: nat, end: Bytes)
    requires |end| == 2 && n + 2 <= |body| && body[n..n + 2] == end
    ensures line + body == (line + body[..n] + end) + (line + body)[|line| + n + 2..]
  {
    assert body == body[..n] + end + body[n + 2..];
    assert (line + body)[|line| + n + 2..] == body[n + 2..];
  }

  lemma StrictBulkIsEncoding(s: Bytes)
    requires StrictBulk(s).Got?
    ensures var r := StrictBulk(s);
            |r.msg| + 2 < 0x8000_0000_0000_0000 && s == EncodeBulk(r.msg) + s[r.used..] && r.used == |EncodeBulk(r.msg)|
  {
    hide FirstLine, Header, StrictHeader;
    var n, line := StrictHeader(DOLLAR, s).value, FirstLine(s);
    assert s == line + s[|line|..];
    CutBulk(line, s[|line|..], n, CRLF);
  }

  lemma {:induction false} StrictBulksAreEncodings(count: nat, s: Bytes)
    requires StrictBulks(count, s).Some?
    ensures var (args, rest) := StrictBulks(count, s).value;
            s == EncodeBulks(args) + rest && forall i | 0 <= i < |args| :: |args[i]| + 2 < 0x8000_0000_0000_0000
  {
    hide StrictBulk, EncodeBulk;
    if count > 0 {
      StrictBulkIsEncoding(s);
      var arg, used := StrictBulk(s).msg, StrictBulk(s).used;
      StrictBulksAreEncodings(count - 1, s[used..]);
      var (args, rest) := StrictBulks(count - 1, s[used..]).value;
      assert ([arg] + args)[1..] == args;
      Assoc(EncodeBulk(arg), EncodeBulks(args), rest);
    }
  }

  /** What the strict reader takes is the encoding of what it returns. */
  lemma StrictReadsEncodings(s: Bytes)
    requires StrictCommand(s).Got?
    ensures var r := StrictCommand(s);
            Encodable(r.msg) && s[..r.used] == EncodeCommand(r.msg)
  {
    hide FirstLine, Header, StrictBulks, EncodeBulks;
    var n, line := StrictHeader(STAR, s).value, FirstLine(s);
    StrictBulksAreEncodings(n, s[|line|..]);
    var (args, rest) := StrictBulks(n, s[|line|..]).value;
    assert s == line + s[|line|..];
    Assoc(line, EncodeBulks(args), rest);
    Seam(line + EncodeBulks(args), rest);
  }

  lemma StrictHeaderReadsBack(mark: byte, n: nat, more: Bytes)
    requires mark < 128 && mark != LF && n < U64
    ensures StrictHeader(mark, Header(mark, n) + more) == Some(n)
  {
    hide FirstLine, TrimEol, ParseOrZero, Utf8Valid;
    HeaderReadsBack(mark, n, more);
    var line := Header(mark, n);
    assert line[1..|line| - 2] == Digits(n) == ([mark] + Digits(n))[1..];
  }

  lemma {:induction false} StrictBulksReadBack(args: seq<Bytes>, more: Bytes)
    requires forall i | 0 <= i < |args| :: |args[i]| + 2 < 0x8000_0000_0000_0000
    ensures StrictBulks(|args|, EncodeBulks(args) + more) == Some((args, more))
  {
    hide StrictBulk, EncodeBulk;
    if args == [] {
      assert EncodeBulks(args) + more == more;
    } else {
      var rest := EncodeBulks(args[1..]) + more;
      Assoc(EncodeBulk(args[0]), EncodeBulks(args[1..]), more);
      StrictBulkReadsBack(args[0], rest);
      Seam(EncodeBulk(args[0]), rest);
      StrictBulksReadBack(args[1..], more);
      assert args == [args[0]] + args[1..];
    }
  }

  lemma StrictBulkReadsBack(arg: Bytes, more: Bytes)
    requires |arg| + 2 < 0x8000_0000_0000_0000
    ensures StrictBulk(EncodeBulk(arg) + more) == Got(arg, |EncodeBulk(arg)|)
  {
    hide FirstLine, Header, TrimEol, ParseOrZero, Utf8Valid, StrictHeader;
    var line, body := Header(DOLLAR, |arg|), arg + CRLF + more;
    assert EncodeBulk(arg) + more == line + body;
    StrictHeaderReadsBack(DOLLAR, |arg|, body);
    HeaderReadsBack(DOLLAR, |arg|, body);
    Seam(line, body);
    assert body[..|arg|] == arg && body[|arg|..|arg| + 2] == CRLF;
  }

  lemma StrictReadsBack(args: seq<Bytes>, more: Bytes)
    requires Encodable(args)
    ensures StrictCommand(EncodeCommand(args) + more) == Got(args, |EncodeCommand(args)|)
  {
    hide FirstLine, Header, TrimEol, ParseOrZero, Utf8Valid, StrictHeader, StrictBulks, EncodeBulks;
    var line, body := Header(STAR, |args|), EncodeBulks(args) + more;
    Assoc(line, EncodeBulks(args), more);
    StrictHeaderReadsBack(STAR, |args|, body);
    HeaderReadsBack(STAR, |args|, body);
    Seam(line, body);
    StrictBulksReadBack(args, more);
  }

  /** The strict reader as a framer of raw commands. */
  function StrictFramer(): Framer<Bytes> {
    s => match StrictCommand(s) case Stop => Stop case Got(_, used) => Got(s[..used], used)
  }

  ghost predicate IsEncoding(raw: Bytes) {
    exists args :: Encodable(args) && raw == EncodeCommand(args)
  }

  lemma StrictFramerIsStable()
    ensures PrefixStable(StrictFramer()) && Verbatim(StrictFramer())
  {
    hide StrictCommand, EncodeCommand;
    forall a: Bytes, b: Bytes | StrictFramer()(a).Got? ensures StrictFramer()(a + b) == StrictFramer()(a) {
      StrictReadsEncodings(a);
      var args, used := StrictCommand(a).msg, StrictCommand(a).used;
      assert a + b == EncodeCommand(args) + (a[used..] + b) by { assert a == a[..used] + a[used..]; }
      StrictReadsBack(args, a[used..] + b);
      Seam(EncodeCommand(args), a[used..] + b);
    }
  }

  /** What the strict reader takes at the head of a forwarded command is that command. */
  lemma AcceptedIsEncoding(t: Codec, frame: Frame<Command>, more: Bytes)
    requires CommandFramer(t)(frame.wire + more) == Got(frame.msg, |frame.wire|)
    requires StrictCommand(frame.wire + more).Got?
    ensures IsEncoding(frame.wire)
  {
    hide StrictCommand, EncodeCommand, ReadCommand;
    var s := frame.wire + more;
    StrictReadsEncodings(s);
    var args, used := StrictCommand(s).msg, StrictCommand(s).used;
    assert s == EncodeCommand(args) + s[used..];
    CommandReadsBack(t, args, s[used..]);
    Seam(frame.wire, more);
    assert frame.wire == EncodeCommand(args);
  }

  /** One forwarded command: the strict reader takes it whole or stops at it. */
  lemma StrictReadsOne(t: Codec, frame: Frame<Command>, more: Bytes)
    requires StandsAs(CommandFramer(t), frame.msg, frame.wire)
    requires more == [] || ReadsAs(CommandFramer(t), frame)
    ensures Received(StrictFramer(), frame.wire + more)
            == if IsEncoding(frame.wire) then [frame.wire] + Received(StrictFramer(), more) else []
  {
    hide StrictCommand, EncodeCommand, ReadCommand;
    var s, wire := frame.wire + more, frame.wire;
    assert wire + [] == wire;
    if StrictCommand(s).Got? {
      AcceptedIsEncoding(t, frame, more);
    }
    if IsEncoding(wire) {
      var args :| Encodable(args) && wire == EncodeCommand(args);
      StrictReadsBack(args, more);
      Seam(wire, more);
      assert StrictFramer()(s) == Got(wire, |wire|);
    }
  }

  /** The commands up to the first that is no encoding. */
  ghost function LeadingEncodings(frames: seq<Frame<Command>>): (wires: seq<Bytes>)
    ensures wires <= Wires(frames)
    ensures wires == Wires(frames) <==> forall f | f in frames :: IsEncoding(f.wire)
  {
    if frames == [] || !IsEncoding(frames[0].wire) then []
    else
      assert frames == [frames[0]] + frames[1..];
      [frames[0].wire] + LeadingEncodings(frames[1..])
  }

  lemma {:induction false} StrictReadsLeading(t: Codec, frames: seq<Frame<Command>>)
    requires Chained(CommandFramer(t), frames)
    ensures Received(StrictFramer(), Flatten(Wires(frames))) == LeadingEncodings(frames)
  {
    hide StrictCommand, ReadCommand, IsEncoding, StandsAs, ReadsAs, Received, StrictFramer;
    if frames == [] {
      assert Wires(frames) == [];
      NothingReceived();
    } else {
      var head, rest := frames[0], frames[1..];
      assert frames == [head] + rest;
      WiresCons(head, rest);
      assert rest == [] ==> Wires(rest) == [];
      StrictReadsOne(t, head, Flatten(Wires(rest)));
      StrictReadsLeading(t, rest);
    }
  }

  lemma NothingReceived()
    ensures Received(StrictFramer(), []) == []
  {
    assert StrictHeader(STAR, []) == None;
  }

  /** What a strict server makes of a session, on arbitrary client bytes: it reads the commands that were not
      blocked up to the first that is no well-formed array, where it stops. It reads all of them if and only if
      all of them are well-formed. */
  lemma StrictServerReadsIff(t: Codec, policy: Policy, ip: string, input: Bytes)
    ensures var sent := Forwarded(Judgements(t, policy, ip, input));
            var read := Received(StrictFramer(), Flatten(sent));
            && read <= sent
            && (forall m | m in read :: IsEncoding(m))
            && (|read| < |sent| ==> !IsEncoding(sent[|read|]))
            && (read == sent <==> forall m | m in sent :: IsEncoding(m))
  {
    hide Frames, Chained, ReadCommand, IsEncoding, StrictFramer, Received;
    var ds, frames := Judgements(t, policy, ip, input), Frames(CommandFramer(t), input);
    SessionConserves(t, policy, ip, input);
    CommandsChain(t, input);
    KeptChain(CommandFramer(t), frames, ds);
    KeptWires(frames, ds);
    var kept := KeptFrames(frames, ds);
    StrictReadsLeading(t, kept);
    LeadingStops(kept);
    assert forall i | 0 <= i < |kept| :: Wires(kept)[i] == kept[i].wire;
  }

  lemma {:induction false} LeadingStops(frames: seq<Frame<Command>>)
    ensures var read := LeadingEncodings(frames);
            && (forall m | m in read :: IsEncoding(m))
            && (|read| < |frames| ==> !IsEncoding(frames[|read|].wire))
  {
    hide IsEncoding;
    if frames != [] && IsEncoding(frames[0].wire) {
      LeadingStops(frames[1..]);
    }
  }

  /** The name the strict server finds is the one the proxy judged. */
  lemma StrictNameIsJudged(t: Codec, command: Command, raw: Bytes)
    requires StandsAs(CommandFramer(t), command, raw) && IsEncoding(raw)
    ensures StrictCommand(raw).Got? && NameOf(t, StrictCommand(raw).msg) == command.name
  {
    hide StrictCommand, EncodeCommand, ReadCommand;
    var args :| Encodable(args) && raw == EncodeCommand(args);
    StrictReadsBack(args, []);
    CommandReadsBack(t, args, []);
    assert raw + [] == raw;
    assert CommandFramer(t)(raw) == ReadCommand(t, raw);
  }

  lemma {:induction false} FramesStand(t: Codec, s: Bytes)
    ensures forall frame | frame in Frames(CommandFramer(t), s) :: StandsAs(CommandFramer(t), frame.msg, frame.wire)
    decreases |s|
  {
    hide ReadCommand, StandsAs, ReadsAs;
    var r := ReadCommand(t, s);
    assert CommandFramer(t)(s) == r;
    if r.Got? {
      CommandStands(t, s);
      FramesStand(t, s[r.used..]);
    }
  }

  lemma ForwardedIsNotEmpty(t: Codec, policy: Policy, ip: string, input: Bytes)
    ensures forall m | m in Forwarded(Judgements(t, policy, ip, input)) :: m != []
  {
    hide Frames, ReadCommand, Forwarded;
    var ds, frames := Judgements(t, policy, ip, input), Frames(CommandFramer(t), input);
    SessionConserves(t, policy, ip, input);
    forall m | m in Forwarded(ds) ensures m != [] {
      ForwardedComesFrom(ds, m);
      var i :| 0 <= i < |ds| && !ds[i].Blocked? && ds[i].raw == m;
      assert frames[i].wire != [];
    }
  }

  lemma {:induction false} StrictReceivesEncodings(s: Bytes)
    ensures forall m | m in Received(StrictFramer(), s) :: IsEncoding(m)
    decreases |s|
  {
    hide StrictCommand, IsEncoding;
    var r := StrictCommand(s);
    if r.Got? {
      StrictReadsEncodings(s);
      EncodingIs(r.msg);
      StrictReceivesEncodings(s[r.used..]);
      assert Received(StrictFramer(), s) == [s[..r.used]] + Received(StrictFramer(), s[r.used..]);
    }
  }

  lemma EncodingIs(args: seq<Bytes>)
    requires Encodable(args)
    ensures IsEncoding(EncodeCommand(args))
  {
  }
}

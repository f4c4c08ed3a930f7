/** The MongoDB wire protocol as the proxy reads and writes it (proxy/src/mongodb.rs): framing, the command name
    of an OP_MSG, and the OP_MSG error reply. */
module MongoWire {
  import opened Options
  import opened Bytes
  import opened Texts
  import opened Streams

  const OP_MSG := 2013
  const MAX_LENGTH := 50331648

  // ---------- framing ----------

  /** `i32::from_le_bytes(..) as usize`: a negative length becomes huge. */
  function TotalLength(prefix: Bytes): nat
    requires |prefix| == 4
  {
    var n := I32Le(prefix);
    if n < 0 then n + U64 else n
  }

  /** `read_mongo_message` on the bytes to come. */
  function ReadMongo(s: Bytes): (r: Read<Bytes>)
    ensures Sound(r, s)
  {
    if |s| < 4 then Stop
    else
      var total := TotalLength(s[..4]);
      if total < 16 || total > MAX_LENGTH || total > |s| then Stop else Got(s[..total], total)
  }

  function MongoFramer(): Framer<Bytes> {
    s => ReadMongo(s)
  }

  lemma MongoFramerProgresses()
    ensures Progressive(MongoFramer())
  {
    forall s: Bytes ensures Sound(MongoFramer()(s), s) {
      assert MongoFramer()(s) == ReadMongo(s);
    }
  }

  method ReadMongoMessage(reader: Reader) returns (r: Option<Bytes>)
    modifies reader
    ensures match ReadMongo(old(reader.rest))
            case Stop => r == None
            case Got(msg, used) => r == Some(msg) && reader.rest == old(reader.rest)[used..]
  {
    var prefix := reader.ReadExact(4);
    if prefix.None? {
      return None;
    }
    var total := TotalLength(prefix.value);
    if total < 16 || total > MAX_LENGTH {
      return None;
    }
    var body := reader.ReadExact(total - 4);
    if body.None? {
      return None;
    }
    assert old(reader.rest)[..total] == prefix.value + body.value;
    r := Some(prefix.value + body.value);
  }

  /** Every message read on arbitrary bytes has at least 16 bytes and as many as its own length field says, so
      the branch for shorter messages is never taken; and it is exactly what was taken off the stream. */
  lemma MessagesCarryTheirLength(s: Bytes)
    requires ReadMongo(s).Got?
    ensures var m := ReadMongo(s).msg;
            16 <= |m| == I32Le(m[..4]) && m == s[..ReadMongo(s).used] && ReadMongo(s).used == |m|
  {
    var r := ReadMongo(s);
    assert r.msg[..4] == s[..4];
  }

  ghost predicate StartsWithWhole(s: Bytes, m: Bytes, rest: Bytes) {
    s == m + rest && 16 <= |m| <= 0x300_0000 && I32Le(m[..4]) == |m|
  }

  /** On arbitrary bytes a read succeeds exactly when the stream starts with a message of 16 bytes to 48 MiB that
      announces its own length, and it returns that message. */
  lemma ReadsExactlyMessages(s: Bytes)
    ensures ReadMongo(s).Got? <==> exists m, rest :: StartsWithWhole(s, m, rest)
    ensures forall m, rest :: StartsWithWhole(s, m, rest) ==> ReadMongo(s) == Got(m, |m|)
  {
    if ReadMongo(s).Got? {
      var m := ReadMongo(s).msg;
      assert m[..4] == s[..4];
      assert StartsWithWhole(s, m, s[|m|..]);
    }
    forall m: Bytes, rest: Bytes | StartsWithWhole(s, m, rest) ensures ReadMongo(s) == Got(m, |m|) {
      assert s[..4] == m[..4];
      Seam(m, rest);
    }
  }

  /** A message is read the same whatever follows it. */
  lemma MongoIsPrefixStable()
    ensures PrefixStable(MongoFramer())
  {
    forall a: Bytes, b: Bytes | MongoFramer()(a).Got? ensures MongoFramer()(a + b) == MongoFramer()(a) {
      assert (a + b)[..4] == a[..4];
      var total := TotalLength(a[..4]);
      assert (a + b)[..total] == a[..total];
    }
  }

  // ---------- the command name ----------

  /** `extract_mongo_command` on the bytes after the 16-byte header. */
  function CommandOf(t: Codec, p: Bytes): Option<string> {
    if |p| < 10 || p[4] != 0 || p[9] == 0 then None
    else
      var n := FirstNul(p[10..]);
      if 10 + n >= |p| || !Utf8Valid(p[10..10 + n]) then None else Some(t.lower(t.Lossy8(p[10..10 + n])))
  }

  method ExtractMongoCommand(t: Codec, p: Bytes) returns (r: Option<string>)
    ensures r == CommandOf(t, p)
  {
    if |p| < 5 {
      return None;
    }
    var pos := 4;
    var kind := p[pos];
    pos := pos + 1;
    if kind != 0 {
      return None;
    }
    if pos + 4 > |p| {
      return None;
    }
    pos := pos + 4;
    if pos >= |p| {
      return None;
    }
    var elementType := p[pos];
    pos := pos + 1;
    if elementType == 0x00 {
      return None;
    }
    var keyStart := pos;
    while pos < |p| && p[pos] != 0
      invariant keyStart == 10 <= pos <= |p|
      invariant forall i | keyStart <= i < pos :: p[i] != 0
    {
      pos := pos + 1;
    }
    FirstNulIs(p[keyStart..], pos - keyStart);
    if pos >= |p| {
      return None;
    }
    if !Utf8Valid(p[keyStart..pos]) {
      return None;
    }
    r := Some(t.lower(t.Lossy8(p[keyStart..pos])));
  }

  /** Flags, a kind-0 section, a document size, the type of a first element, and its NUL-terminated key. */
  predicate OpensWith(p: Bytes, flags: Bytes, size: Bytes, elementType: byte, key: Bytes, more: Bytes) {
    && |flags| == 4 && |size| == 4 && elementType != 0 && 0 !in key
    && p == flags + [0] + size + [elementType] + key + [0] + more
  }

  /** A command is extracted from exactly the payloads that open with a kind-0 document whose first element has
      a valid UTF-8 key, and it is that key in lower case. */
  lemma CommandIsFirstKey(t: Codec, p: Bytes)
    ensures CommandOf(t, p).Some? <==>
            exists flags, size, ty, key, more :: OpensWith(p, flags, size, ty, key, more) && Utf8Valid(key)
    ensures forall flags, size, ty, key, more :: OpensWith(p, flags, size, ty, key, more) && Utf8Valid(key)
              ==> CommandOf(t, p) == Some(t.lower(t.Lossy8(key)))
  {
    hide Utf8Valid, OpensWith, CommandOf;
    if CommandOf(t, p).Some? {
      var flags, size, ty, key, more := CommandHasKey(t, p);
    }
    forall flags, size, ty, key, more | OpensWith(p, flags, size, ty, key, more) && Utf8Valid(key)
      ensures CommandOf(t, p) == Some(t.lower(t.Lossy8(key)))
    {
      KeyIsCommand(t, p, flags, size, ty, key, more);
    }
  }

  lemma CommandHasKey(t: Codec, p: Bytes) returns (flags: Bytes, size: Bytes, ty: byte, key: Bytes, more: Bytes)
    requires CommandOf(t, p).Some?
    ensures OpensWith(p, flags, size, ty, key, more) && Utf8Valid(key)
  {
    hide Utf8Valid;
    var rest := p[10..];
    var n := FirstNul(rest);
    flags, size, ty, key, more := p[..4], p[5..9], p[9], p[10..10 + n], p[11 + n..];
    assert rest[..n] == key;
    assert rest == key + [0] + more;
    assert p == flags + [0] + size + [ty] + rest;
    Assoc(flags + [0] + size + [ty], key + [0], more);
    Assoc(flags + [0] + size + [ty], key, [0]);
  }

  lemma KeyIsCommand(t: Codec, p: Bytes, flags: Bytes, size: Bytes, ty: byte, key: Bytes, more: Bytes)
    requires OpensWith(p, flags, size, ty, key, more) && Utf8Valid(key)
    ensures CommandOf(t, p) == Some(t.lower(t.Lossy8(key)))
  {
    hide Utf8Valid;
    var lead := flags + [0] + size + [ty];
    Assoc(lead, key + [0], more);
    Assoc(lead, key, [0]);
    Seam(lead, key + [0] + more);
    assert p[10..] == key + [0] + more;
    FirstNulOfCString(key, more);
    assert p[10..10 + |key|] == key;
  }

  // ---------- what a server takes for the command ----------

  /** Where the body of an OP_MSG starts, for a reader that walks all sections: kind 0 is the body, kind 1 a
      sized sequence of documents that is skipped. */
  function BodyAt(p: Bytes, at: nat): (r: Option<nat>)
    ensures r.Some? ==> at < r.value <= |p|
    decreases |p| - at
  {
    if at >= |p| then None
    else if p[at] == 0 then Some(at + 1)
    else if p[at] == 1 && at + 5 <= |p| && 4 <= I32Le(p[at + 1..at + 5]) <= |p| - at - 1 then
      BodyAt(p, at + 1 + I32Le(p[at + 1..at + 5]))
    else None
  }

  /** The key of the first element of the document at `at`, in lower case. */
  function FirstKey(t: Codec, p: Bytes, at: nat): Option<string> {
    if at + 5 > |p| || p[at + 4] == 0 then None
    else
      var rest := p[at + 5..];
      var n := FirstNul(rest);
      if n >= |rest| || !Utf8Valid(rest[..n]) then None else Some(t.lower(t.Lossy8(rest[..n])))
  }

  /** The command such a reader finds in the payload. */
  function BodyCommand(t: Codec, p: Bytes): Option<string> {
    match BodyAt(p, 4)
    case None => None
    case Some(at) => FirstKey(t, p, at)
  }

  /** A kind-1 section: its size, which counts itself, and its content. */
  function Sequence(content: Bytes): Bytes {
    [1] + PutI32Le(|content| + 4) + content
  }

  function Sequences(contents: seq<Bytes>): Bytes {
    if contents == [] then [] else Sequence(contents[0]) + Sequences(contents[1..])
  }

  /** Walking finds the body behind any number of document sequences, and its first key there. */
  lemma WalkFindsTheBody(t: Codec, flags: Bytes, contents: seq<Bytes>, size: Bytes, ty: byte, key: Bytes, more: Bytes)
    requires |flags| == 4 && |size| == 4 && ty != 0 && 0 !in key && Utf8Valid(key)
    requires forall c | c in contents :: |c| + 4 < 0x8000_0000
    ensures BodyCommand(t, flags + Sequences(contents) + ([0] + (size + [ty] + (key + [0] + more))))
            == Some(t.lower(t.Lossy8(key)))
  {
    hide Utf8Valid, FirstKey, BodyAt;
    var doc := size + [ty] + (key + [0] + more);
    var p := flags + Sequences(contents) + ([0] + doc);
    SequencesAreSkipped(flags, contents, doc);
    var at := 4 + |Sequences(contents)| + 1;
    assert p[at..] == doc;
    KeyIsFirst(t, p, at, size, ty, key, more);
  }

  lemma KeyIsFirst(t: Codec, p: Bytes, at: nat, size: Bytes, ty: byte, key: Bytes, more: Bytes)
    requires at <= |p| && p[at..] == size + [ty] + (key + [0] + more)
    requires |size| == 4 && ty != 0 && 0 !in key && Utf8Valid(key)
    ensures FirstKey(t, p, at) == Some(t.lower(t.Lossy8(key)))
  {
    hide Utf8Valid;
    assert p[at + 4] == p[at..][4] == ty;
    assert p[at + 5..] == p[at..][5..] == key + [0] + more;
    FirstNulOfCString(key, more);
    assert (key + [0] + more)[..|key|] == key;
  }

  lemma {:induction false} SequencesAreSkipped(lead: Bytes, contents: seq<Bytes>, doc: Bytes)
    requires forall c | c in contents :: |c| + 4 < 0x8000_0000
    ensures BodyAt(lead + Sequences(contents) + ([0] + doc), |lead|) == Some(|lead| + |Sequences(contents)| + 1)
    decreases |contents|
  {
    hide PutI32Le, I32Le;
    var p := lead + Sequences(contents) + ([0] + doc);
    if contents == [] {
      assert p == lead + ([0] + doc);
    } else {
      var first, rest := Sequence(contents[0]), Sequences(contents[1..]);
      var size := PutI32Le(|contents[0]| + 4);
      assert contents[0] in contents;
      assert p == (lead + first) + rest + ([0] + doc);
      assert p[|lead|] == 1 && p[|lead| + 1..|lead| + 5] == size;
      SequencesAreSkipped(lead + first, contents[1..], doc);
    }
  }

  /** The exact line: the proxy finds the command of the body if and only if the body is the first section. With
      a document sequence in front it finds none. */
  lemma ProxyFindsBodyIff(t: Codec, p: Bytes)
    requires BodyCommand(t, p).Some?
    ensures CommandOf(t, p) == BodyCommand(t, p) <==> p[4] == 0
    ensures p[4] != 0 ==> CommandOf(t, p) == None
  {
    hide Utf8Valid;
    if p[4] == 0 {
      assert BodyAt(p, 4) == Some(5);
      var rest := p[10..];
      assert rest[..FirstNul(rest)] == p[10..10 + FirstNul(rest)];
    }
  }

  // ---------- the error reply ----------

  function Int32Element(key: string, value: int): Bytes
    requires forall i | 0 <= i < |key| :: key[i] as int < 128
  {
    [0x10] + Ascii(key) + [0] + PutI32Le(value)
  }

  /** The length field counts the terminating NUL and is cut to 32 bits. */
  function StringElement(key: string, text: Bytes): Bytes
    requires forall i | 0 <= i < |key| :: key[i] as int < 128
  {
    [0x02] + Ascii(key) + [0] + PutI32Le(|text| + 1) + text + [0]
  }

  function ErrorElements(message: Bytes): (b: Bytes)
    ensures |b| == 31 + |message|
  {
    Int32Element("ok", 0) + StringElement("errmsg", message) + Int32Element("code", 13)
  }

  function Document(elements: Bytes): (b: Bytes)
    ensures |b| == 5 + |elements|
  {
    PutI32Le(|elements| + 5) + elements + [0]
  }

  function MessageHeader(length: nat, requestId: int, responseTo: int): (b: Bytes)
    ensures |b| == 16
  {
    PutI32Le(length) + PutI32Le(requestId) + PutI32Le(responseTo) + PutI32Le(OP_MSG)
  }

  /** `build_opmsg_error`: { ok: 0, errmsg: message, code: 13 } in reply to a request. */
  function OpMsgError(responseTo: int, message: Bytes): (b: Bytes)
    ensures |b| == 57 + |message|
  {
    MessageHeader(57 + |message|, 0, responseTo) + (PutU32Le(0) + [0] + Document(ErrorElements(message)))
  }

  method BuildOpMsgError(responseTo: int, message: Bytes) returns (wire: Bytes)
    ensures wire == OpMsgError(responseTo, message)
  {
    hide PutI32Le, PutU32Le;
    var body: Bytes := [0x10];
    body := body + Ascii("ok") + [0];
    body := body + PutI32Le(0);
    assert body == Int32Element("ok", 0);
    ghost var ok := body;
    body := body + [0x02];
    body := body + Ascii("errmsg") + [0];
    body := body + PutI32Le(|message| + 1);
    body := body + message;
    body := body + [0x00];
    assert body == ok + StringElement("errmsg", message);
    ghost var text := body;
    body := body + [0x10];
    body := body + Ascii("code") + [0];
    body := body + PutI32Le(13);
    assert body == text + Int32Element("code", 13);
    assert body == ErrorElements(message);
    hide ErrorElements, Int32Element, StringElement;
    body := body + [0x00];
    var doc := PutI32Le(|body| + 4) + body;
    assert doc == Document(ErrorElements(message));
    hide Document;
    var opmsg := PutU32Le(0) + [0x00] + doc;
    wire := PutI32Le(16 + |opmsg|);
    wire := wire + PutI32Le(0);
    wire := wire + PutI32Le(responseTo);
    wire := wire + PutI32Le(OP_MSG);
    assert wire == MessageHeader(57 + |message|, 0, responseTo);
    wire := wire + opmsg;
  }

  /** The exact bound: the proxy's own reader accepts the reply, with anything behind it, if and only if the
      message has at most 50331591 bytes. */
  lemma ErrorReplyReadsBackIff(responseTo: int, message: Bytes, more: Bytes)
    ensures ReadMongo(OpMsgError(responseTo, message) + more) == Got(OpMsgError(responseTo, message), 57 + |message|)
            <==> |message| <= 50331591
  {
    hide Document, ErrorElements;
    var wire := OpMsgError(responseTo, message);
    assert (wire + more)[..4] == PutI32Le(57 + |message|);
    Seam(wire, more);
  }

  lemma ErrorReplyIsFrameIff(responseTo: int, message: Bytes)
    ensures ReadsAs(MongoFramer(), Frame(OpMsgError(responseTo, message), OpMsgError(responseTo, message)))
            <==> |message| <= 50331591
  {
    hide OpMsgError, ReadMongo;
    var wire, f := OpMsgError(responseTo, message), MongoFramer();
    forall more: Bytes ensures f(wire + more) == Got(wire, |wire|) <==> |message| <= 50331591 {
      ErrorReplyReadsBackIff(responseTo, message, more);
    }
    assert f(wire + []) == Got(wire, |wire|) <==> |message| <= 50331591;
  }

  // ---------- a client's reading of a reply ----------

  datatype Element = Int32(key: Bytes, value: int) | Text(key: Bytes, text: Bytes)

  /** The element at the head of b, and what follows it. */
  function NextElement(b: Bytes): (r: Option<(Element, Bytes)>)
    ensures r.Some? ==> |r.value.1| < |b|
  {
    if b == [] then None
    else
      var n := FirstNul(b[1..]);
      if n + 1 >= |b| then None
      else ElementValue(b[0], b[1..n + 1], b[n + 2..])
  }

  /** A value of the given type behind its key. */
  function ElementValue(kind: byte, key: Bytes, value: Bytes): (r: Option<(Element, Bytes)>)
    ensures r.Some? ==> |r.value.1| <= |value|
  {
    if |value| < 4 then None
    else
      var len := I32Le(value[..4]);
      if kind == 0x10 then Some((Int32(key, len), value[4..]))
      else if kind == 0x02 && 1 <= len <= |value| - 4 && value[3 + len] == 0 then
        Some((Text(key, value[4..3 + len]), value[4 + len..]))
      else None
  }

  /** The elements of a document, up to the closing NUL. */
  function DecodeElements(b: Bytes): Option<seq<Element>>
    decreases |b|
  {
    if b == [0] then Some([])
    else
      match NextElement(b)
      case None => None
      case Some((e, rest)) => Prepend(e, DecodeElements(rest))
  }

  function Prepend(e: Element, rest: Option<seq<Element>>): Option<seq<Element>> {
    match rest
    case None => None
    case Some(more) => Some([e] + more)
  }

  datatype Reply = Reply(requestId: int, responseTo: int, elements: seq<Element>)

  /** Every length field is checked against what is there. */
  function DecodeReply(wire: Bytes): Option<Reply> {
    if |wire| < 26 || I32Le(wire[..4]) != |wire| || I32Le(wire[12..16]) != 2013
       || U32Le(wire[16..20]) != 0 || wire[20] != 0 || I32Le(wire[21..25]) != |wire| - 21 then None
    else
      match DecodeElements(wire[25..])
      case None => None
      case Some(elements) => Some(Reply(I32Le(wire[4..8]), I32Le(wire[8..12]), elements))
  }

  lemma DecodeStep(b: Bytes, e: Element, rest: Bytes)
    requires |b| > 1 && NextElement(b) == Some((e, rest))
    ensures DecodeElements(b) == Prepend(e, DecodeElements(rest))
  {
    hide NextElement, Prepend;
  }

  lemma Int32Decodes(key: string, value: int, rest: Bytes)
    requires forall i | 0 <= i < |key| :: 0 < key[i] as int < 128
    requires -0x8000_0000 <= value < 0x8000_0000
    ensures DecodeElements(Int32Element(key, value) + rest) == Prepend(Int32(Ascii(key), value), DecodeElements(rest))
  {
    hide PutI32Le, DecodeElements;
    var b, name, number := Int32Element(key, value) + rest, Ascii(key), PutI32Le(value);
    assert b == [0x10] + (name + [0] + (number + rest));
    hide Int32Element;
    CutKey(b, 0x10, name, number + rest);
    FirstNulOfCString(name, number + rest);
    Seam(number, rest);
    DecodeStep(b, Int32(name, value), rest);
  }

  lemma CutText(number: Bytes, text: Bytes, rest: Bytes)
    requires |number| == 4
    ensures var value := number + text + [0] + rest;
            value[..4] == number && value[3 + (|text| + 1)] == 0
            && value[4..3 + (|text| + 1)] == text && value[4 + (|text| + 1)..] == rest
  {
  }

  lemma TextDecodes(key: string, text: Bytes, rest: Bytes)
    requires forall i | 0 <= i < |key| :: 0 < key[i] as int < 128
    requires |text| + 1 < 0x8000_0000
    ensures DecodeElements(StringElement(key, text) + rest) == Prepend(Text(Ascii(key), text), DecodeElements(rest))
  {
    hide PutI32Le, DecodeElements;
    var b, name, number := StringElement(key, text) + rest, Ascii(key), PutI32Le(|text| + 1);
    var value := number + text + [0] + rest;
    assert b == [0x02] + (name + [0] + value);
    hide StringElement;
    CutKey(b, 0x02, name, value);
    FirstNulOfCString(name, value);
    CutText(number, text, rest);
    DecodeStep(b, Text(name, text), rest);
  }

  lemma CutKey(b: Bytes, kind: byte, name: Bytes, value: Bytes)
    requires b == [kind] + (name + [0] + value)
    ensures b[0] == kind && b[1..] == name + [0] + value && b[1..|name| + 1] == name && b[|name| + 2..] == value
  {
  }

  /** Keys and values of the error document. */
  function ErrorContent(message: Bytes): seq<Element> {
    [Int32(Ascii("ok"), 0), Text(Ascii("errmsg"), message), Int32(Ascii("code"), 13)]
  }

  lemma ElementsDecode(message: Bytes)
    requires |message| + 1 < 0x8000_0000
    ensures DecodeElements(ErrorElements(message) + [0]) == Some(ErrorContent(message))
  {
    hide DecodeElements, Int32Element, StringElement;
    var ok, text, code := Int32Element("ok", 0), StringElement("errmsg", message), Int32Element("code", 13);
    Int32Decodes("ok", 0, text + (code + [0]));
    TextDecodes("errmsg", message, code + [0]);
    Int32Decodes("code", 13, [0]);
    NothingMore();
    assert ErrorElements(message) + [0] == ok + (text + (code + [0]));
    assert ErrorContent(message)
        == [Int32(Ascii("ok"), 0)] + ([Text(Ascii("errmsg"), message)] + ([Int32(Ascii("code"), 13)] + []));
  }

  lemma NothingMore()
    ensures DecodeElements([0]) == Some([])
  {
  }

  /** A client that decodes the reply recovers ok = 0, the message, code = 13 and the request it answers; every
      nested length field is consistent, and the proxy's own extraction finds the first key. */
  lemma ErrorReplyDecodes(t: Codec, responseTo: int, message: Bytes)
    requires -0x8000_0000 <= responseTo < 0x8000_0000
    requires |message| <= 50331591
    ensures DecodeReply(OpMsgError(responseTo, message)) == Some(Reply(0, responseTo, ErrorContent(message)))
    ensures CommandOf(t, OpMsgError(responseTo, message)[16..]) == Some(t.lower(t.Lossy8(Ascii("ok"))))
  {
    hide DecodeElements, PutI32Le, PutU32Le, I32Le, U32Le, CommandOf, ErrorContent;
    var wire, elements := OpMsgError(responseTo, message), ErrorElements(message);
    var header, size := MessageHeader(57 + |message|, 0, responseTo), PutI32Le(|elements| + 5);
    assert wire == header + (PutU32Le(0) + [0] + (size + elements + [0]));
    hide ErrorElements;
    HeaderFields(57 + |message|, 0, responseTo, wire, PutU32Le(0) + [0] + (size + elements + [0]));
    assert wire[16..20] == PutU32Le(0);
    assert wire[21..25] == size;
    assert wire[25..] == elements + [0];
    ElementsDecode(message);
    FirstElement(t, message, wire[16..], size);
  }

  lemma HeaderFields(length: nat, requestId: int, responseTo: int, wire: Bytes, rest: Bytes)
    requires wire == MessageHeader(length, requestId, responseTo) + rest
    ensures |wire| >= 16 && wire[..4] == PutI32Le(length) && wire[4..8] == PutI32Le(requestId)
    ensures wire[8..12] == PutI32Le(responseTo) && wire[12..16] == PutI32Le(OP_MSG)
  {
    hide PutI32Le;
  }

  lemma FirstElement(t: Codec, message: Bytes, payload: Bytes, size: Bytes)
    requires |size| == 4 && payload == PutU32Le(0) + [0] + (size + ErrorElements(message) + [0])
    ensures CommandOf(t, payload) == Some(t.lower(t.Lossy8(Ascii("ok"))))
  {
    hide PutI32Le, PutU32Le, CommandOf, Utf8Valid, StringElement;
    var lead := PutU32Le(0) + [0] + size;
    var more := PutI32Le(0) + StringElement("errmsg", message) + Int32Element("code", 13) + [0];
    var doc := [0x10] + Ascii("ok") + [0] + more;
    assert ErrorElements(message) + [0] == doc;
    Assoc(size, ErrorElements(message), [0]);
    Assoc(PutU32Le(0) + [0], size, doc);
    assert payload == lead + doc;
    assert lead + doc == lead + [0x10] + Ascii("ok") + [0] + more;
    assert OpensWith(payload, PutU32Le(0), size, 0x10, Ascii("ok"), more);
    AsciiIsUtf8(Ascii("ok"));
    KeyIsCommand(t, payload, PutU32Le(0), size, 0x10, Ascii("ok"), more);
  }
}

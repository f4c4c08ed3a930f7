/** The PostgreSQL start-up message as the proxy reads it, and its ErrorResponse (proxy/src/postgres.rs);
    formats follow section 55.7 of the PostgreSQL 16 documentation. */
module Postgres {
  import opened Options
  import opened Bytes
  import opened Texts
  import opened Streams

  const USER: Bytes := Ascii("user")
  const DATABASE: Bytes := Ascii("database")

  datatype Startup = Startup(user: Option<string>, database: Option<string>, raw: Bytes)

  // ---------- reading ----------

  /** `split(|b| b == 0)`: one piece more than there are NULs. */
  function Split(s: Bytes): (pieces: seq<Bytes>)
    ensures pieces != []
    decreases |s|
  {
    var n := FirstNul(s);
    if n == |s| then [s] else [s[..n]] + Split(s[n + 1..])
  }

  /** Keys are compared as bytes: lossy decoding yields "user" or "database" from those bytes only. */
  function Note(t: Codec, found: Startup, key: Bytes, value: Bytes): Startup {
    if key == USER then found.(user := Some(t.Lossy8(value)))
    else if key == DATABASE then found.(database := Some(t.Lossy8(value)))
    else found
  }

  /** Pieces are taken two at a time until they run out or a key is empty; later values replace earlier ones. */
  function NoteAll(t: Codec, found: Startup, pieces: seq<Bytes>): Startup
    decreases |pieces|
  {
    if |pieces| < 2 || pieces[0] == [] then found else NoteAll(t, Note(t, found, pieces[0], pieces[1]), pieces[2..])
  }

  function ParseBody(t: Codec, raw: Bytes, body: Bytes): Startup {
    var nothing := Startup(None, None, raw);
    if |body| > 4 then NoteAll(t, nothing, Split(body[4..])) else nothing
  }

  /** `read_startup_message` on the bytes to come. A length under 4 underflows and ends the task. */
  function ReadStartup(t: Codec, s: Bytes): (r: Read<Startup>)
    ensures Sound(r, s)
    ensures r.Got? ==> 4 <= |s| && r.used == U32Be(s[..4])
  {
    if |s| < 4 then Stop
    else
      var len := U32Be(s[..4]);
      if len < 4 || len > |s| then Stop else Got(ParseBody(t, s[..len], s[4..len]), len)
  }

  method ReadStartupMessage(t: Codec, reader: Reader) returns (r: Option<Startup>)
    modifies reader
    ensures match ReadStartup(t, old(reader.rest))
            case Stop => r == None
            case Got(startup, used) => r == Some(startup) && reader.rest == old(reader.rest)[used..]
  {
    hide Split, NoteAll;
    var s := reader.rest;
    var lenBuf := reader.ReadExact(4);
    if lenBuf.None? {
      return None;
    }
    var len := U32Be(lenBuf.value);
    if len < 4 {
      return None;
    }
    var body := reader.ReadExact(len - 4);
    if body.None? {
      return None;
    }
    assert s[..len] == lenBuf.value + body.value && s[4..len] == body.value;
    var startup := Startup(None, None, lenBuf.value + body.value);
    if |body.value| > 4 {
      startup := ReadParameters(t, startup, Split(body.value[4..]));
    }
    r := Some(startup);
  }

  /** The `while let (Some(key), Some(val))` loop. */
  method ReadParameters(t: Codec, start: Startup, pieces: seq<Bytes>) returns (found: Startup)
    ensures found == NoteAll(t, start, pieces)
  {
    found := start;
    var i := 0;
    while i + 1 < |pieces|
      invariant i <= |pieces|
      invariant NoteAll(t, start, pieces) == NoteAll(t, found, pieces[i..])
    {
      var key, value := pieces[i], pieces[i + 1];
      if key == [] {
        break;
      }
      found := Note(t, found, key, value);
      assert pieces[i..][2..] == pieces[i + 2..];
      i := i + 2;
    }
  }

  // ---------- the start-up message, and reading it back ----------

  type Parameter = (Bytes, Bytes)

  /** NUL-free, and the key is not empty; values may be. */
  predicate Encodable(p: Parameter) {
    0 !in p.0 && 0 !in p.1 && p.0 != []
  }

  function EncodeParameters(ps: seq<Parameter>): Bytes {
    if ps == [] then [0] else ps[0].0 + [0] + (ps[0].1 + [0] + EncodeParameters(ps[1..]))
  }

  function EncodeStartup(version: Bytes, ps: seq<Parameter>): Bytes
    requires |version| == 4 && 8 + |EncodeParameters(ps)| < U32
  {
    PutU32Be(8 + |EncodeParameters(ps)|) + (version + EncodeParameters(ps))
  }

  /** The value of the last parameter with this key. */
  function LastValue(t: Codec, ps: seq<Parameter>, key: Bytes): Option<string> {
    if ps == [] then None
    else if ps[|ps| - 1].0 == key then Some(t.Lossy8(ps[|ps| - 1].1))
    else LastValue(t, ps[..|ps| - 1], key)
  }

  lemma SplitCString(key: Bytes, more: Bytes)
    requires 0 !in key
    ensures Split(key + [0] + more) == [key] + Split(more)
  {
    FirstNulOfCString(key, more);
    var s := key + [0] + more;
    assert s[..|key|] == key && s[|key| + 1..] == more;
  }

  lemma PairSplits(key: Bytes, value: Bytes, rest: Bytes)
    requires 0 !in key && 0 !in value
    ensures var pieces := Split(key + [0] + (value + [0] + rest));
            |pieces| >= 2 && pieces[0] == key && pieces[1] == value && pieces[2..] == Split(rest)
  {
    hide Split;
    SplitCString(key, value + [0] + rest);
    SplitCString(value, rest);
  }

  lemma ClosingSplits()
    ensures Split([0]) == [[], []]
  {
    SplitCString([], []);
    assert [] + [0] + [] == [0];
  }

  lemma {:induction false} ParametersReadBack(t: Codec, found: Startup, ps: seq<Parameter>)
    requires forall i | 0 <= i < |ps| :: Encodable(ps[i])
    ensures NoteAll(t, found, Split(EncodeParameters(ps))) == NotePairs(t, found, ps)
    decreases |ps|
  {
    hide Split;
    if ps == [] {
      ClosingSplits();
    } else {
      PairSplits(ps[0].0, ps[0].1, EncodeParameters(ps[1..]));
      ParametersReadBack(t, Note(t, found, ps[0].0, ps[0].1), ps[1..]);
    }
  }

  function NotePairs(t: Codec, found: Startup, ps: seq<Parameter>): Startup
    decreases |ps|
  {
    if ps == [] then found else NotePairs(t, Note(t, found, ps[0].0, ps[0].1), ps[1..])
  }

  lemma {:induction false} NotePairsSnoc(t: Codec, found: Startup, ps: seq<Parameter>, last: Parameter)
    ensures NotePairs(t, found, ps + [last]) == Note(t, NotePairs(t, found, ps), last.0, last.1)
    decreases |ps|
  {
    if ps == [] {
      assert ps + [last] == [last];
      assert [last][1..] == [];
    } else {
      assert (ps + [last])[1..] == ps[1..] + [last];
      NotePairsSnoc(t, Note(t, found, ps[0].0, ps[0].1), ps[1..], last);
    }
  }

  lemma {:induction false} LastWins(t: Codec, raw: Bytes, ps: seq<Parameter>)
    ensures NotePairs(t, Startup(None, None, raw), ps)
            == Startup(LastValue(t, ps, USER), LastValue(t, ps, DATABASE), raw)
    decreases |ps|
  {
    if ps != [] {
      var init, last := ps[..|ps| - 1], ps[|ps| - 1];
      assert ps == init + [last];
      NotePairsSnoc(t, Startup(None, None, raw), init, last);
      LastWins(t, raw, init);
      assert |USER| != |DATABASE|;
    }
  }

  /** Reading undoes encoding: for any parameters, the last `user` and the last `database` are returned, and the
      raw bytes are the message, whatever follows it. */
  lemma StartupReadsBack(t: Codec, version: Bytes, ps: seq<Parameter>, more: Bytes)
    requires |version| == 4 && 8 + |EncodeParameters(ps)| < U32
    requires forall p | p in ps :: Encodable(p)
    ensures var wire := EncodeStartup(version, ps);
            ReadStartup(t, wire + more)
            == Got(Startup(LastValue(t, ps, Ascii("user")), LastValue(t, ps, Ascii("database")), wire), |wire|)
  {
    hide PutU32Be, EncodeParameters, Split, NoteAll, NotePairs;
    var wire, len := EncodeStartup(version, ps), 8 + |EncodeParameters(ps)|;
    var s := wire + more;
    Seam(wire, more);
    assert s[..4] == PutU32Be(len);
    var body := version + EncodeParameters(ps);
    assert s[4..len] == body;
    Seam(version, EncodeParameters(ps));
    ParametersNotEmpty(ps);
    ParametersReadBack(t, Startup(None, None, wire), ps);
    LastWins(t, wire, ps);
  }

  lemma ParametersNotEmpty(ps: seq<Parameter>)
    ensures EncodeParameters(ps) != []
  {
  }

  // ---------- ErrorResponse ----------

  datatype Field = Field(code: byte, text: Bytes)

  function ErrorFields(message: Bytes): seq<Field> {
    [Field(83, Ascii("FATAL"))]
    + ([Field(86, Ascii("FATAL"))] + ([Field(67, Ascii("28000"))] + ([Field(77, message)] + [])))
  }

  function EncodeFields(fields: seq<Field>): Bytes {
    if fields == [] then [0] else [fields[0].code] + (fields[0].text + [0] + EncodeFields(fields[1..]))
  }

  /** The formatted text: four fields with their NULs and the closing NUL. */
  function ErrorText(message: Bytes): (b: Bytes)
    ensures |b| == |message| + 24
  {
    Ascii("SFATAL") + [0] + (Ascii("VFATAL") + [0] + (Ascii("C28000") + [0] + ([77] + message + [0] + [0])))
  }

  /** `send_pg_error`; the length is cut to 32 bits. */
  function ErrorResponse(message: Bytes): (b: Bytes)
    ensures |b| == |message| + 29
  {
    [69] + PutU32Be((|message| + 28) % 0x1_0000_0000) + ErrorText(message)
  }

  method SendPgError(message: Bytes) returns (wire: Bytes)
    ensures wire == ErrorResponse(message)
  {
    hide PutU32Be, Ascii;
    var text := ErrorText(message);
    var len := (|text| + 4) % 0x1_0000_0000;
    wire := [69];
    wire := wire + PutU32Be(len);
    wire := wire + text;
  }

  /** A client's reading of the fields: a code byte and a C string each, closed by a NUL. */
  function DecodeFields(b: Bytes): Option<seq<Field>>
    decreases |b|
  {
    if b == [0] then Some([])
    else if b == [] || b[0] == 0 then None
    else
      var n := FirstNul(b[1..]);
      if n + 1 >= |b| then None
      else
        match DecodeFields(b[n + 2..])
        case None => None
        case Some(rest) => Some([Field(b[0], b[1..n + 1])] + rest)
  }

  lemma {:induction false} FieldsDecode(fields: seq<Field>)
    requires forall f | f in fields :: f.code != 0 && 0 !in f.text
    ensures DecodeFields(EncodeFields(fields)) == Some(fields)
  {
    if fields != [] {
      var f, rest := fields[0], EncodeFields(fields[1..]);
      var b := EncodeFields(fields);
      assert f in fields;
      assert b[1..] == f.text + [0] + rest;
      FirstNulOfCString(f.text, rest);
      assert b[1..|f.text| + 1] == f.text;
      assert b[|f.text| + 2..] == rest;
      FieldsDecode(fields[1..]);
      assert fields == [f] + fields[1..];
    } else {
      assert EncodeFields(fields) == [0];
    }
  }

  lemma ErrorTextIsFields(message: Bytes)
    ensures ErrorText(message) == EncodeFields(ErrorFields(message))
  {
    hide Ascii, EncodeFields;
    var fm := [Field(77, message)] + [];
    var fc := [Field(67, Ascii("28000"))] + fm;
    var fv := [Field(86, Ascii("FATAL"))] + fc;
    Literals();
    FieldsCons(Field(77, message), []);
    FieldsCons(Field(67, Ascii("28000")), fm);
    FieldsCons(Field(86, Ascii("FATAL")), fc);
    FieldsCons(Field(83, Ascii("FATAL")), fv);
    Tagged(77, message, [0]);
    Tagged(67, Ascii("28000"), EncodeFields(fm));
    Tagged(86, Ascii("FATAL"), EncodeFields(fc));
    Tagged(83, Ascii("FATAL"), EncodeFields(fv));
  }

  lemma Tagged(code: byte, text: Bytes, rest: Bytes)
    ensures [code] + text + [0] + rest == [code] + (text + [0] + rest)
  {
  }

  lemma Literals()
    ensures Ascii("SFATAL") == [83] + Ascii("FATAL")
    ensures Ascii("VFATAL") == [86] + Ascii("FATAL")
    ensures Ascii("C28000") == [67] + Ascii("28000")
  {
  }

  lemma FieldsCons(f: Field, fs: seq<Field>)
    ensures EncodeFields([f] + fs) == [f.code] + (f.text + [0] + EncodeFields(fs))
    ensures EncodeFields([]) == [0]
  {
    assert ([f] + fs)[1..] == fs;
  }

  /** A client decodes exactly the S, V, C and M fields if and only if the message is free of NULs. */
  lemma ErrorResponseDecodesIff(message: Bytes)
    ensures DecodeFields(ErrorResponse(message)[5..]) == Some(ErrorFields(message)) <==> 0 !in message
  {
    hide DecodeFields, ErrorText, EncodeFields, PutU32Be;
    Seam([69] + PutU32Be((|message| + 28) % 0x1_0000_0000), ErrorText(message));
    ErrorTextIsFields(message);
    if 0 !in message {
      FieldsDecode(ErrorFields(message));
    } else {
      DecodedTextHasNoNul(ErrorText(message));
      assert 0 in ErrorFields(message)[3].text;
    }
  }

  /** The length field is right, and counts itself, if and only if the message stays under 4 GiB. */
  lemma ErrorLengthIsRightIff(message: Bytes)
    ensures ErrorResponse(message)[0] == 69
    ensures U32Be(ErrorResponse(message)[1..5]) == |ErrorResponse(message)| - 1 <==> |message| + 28 < U32
  {
    hide ErrorText, PutU32Be;
    assert ErrorResponse(message)[1..5] == PutU32Be((|message| + 28) % 0x1_0000_0000);
  }

  lemma {:induction false} DecodedTextHasNoNul(b: Bytes)
    ensures DecodeFields(b).Some? ==> forall i | 0 <= i < |DecodeFields(b).value| :: 0 !in DecodeFields(b).value[i].text
    decreases |b|
  {
    if DecodeFields(b).Some? && b != [0] {
      var n := FirstNul(b[1..]);
      assert b[1..][..n] == b[1..n + 1];
      DecodedTextHasNoNul(b[n + 2..]);
    }
  }
}

/** The audit log: sinks that append (audit/src/logger.rs) and the paged query over the file
    (api/src/routes/audit.rs). Serialisation is a parameter: `parse` reads one trimmed line. */
module AuditLog {
  import opened Options
  import opened Bytes
  import opened Texts
  import opened Streams
  import opened AuditEvents

  // ---------- sinks ----------

  /** A file that is opened for appending on every write. A write puts out the line and a line feed, or some
      front of them. The source hands the bytes to a background thread and may report success first, so what
      gets to the file, `written`, is not what the call reports. */
  class FileSink {
    var content: Bytes

    constructor ()
      ensures content == []
    {
      content := [];
    }

    method Write(line: Bytes, written: nat)
      requires written <= |line| + 1
      modifies this
      ensures content == old(content) + (line + [LF])[..written]
    {
      content := content + (line + [LF])[..written];
    }
  }

  predicate AllDistinct(sinks: seq<FileSink>) {
    forall i, j | 0 <= i < j < |sinks| :: sinks[i] != sinks[j]
  }

  class AuditLogger {
    var sinks: seq<FileSink>

    constructor ()
      ensures sinks == []
    {
      sinks := [];
    }

    /** The logger takes ownership of its sinks, so none is added twice. */
    method AddSink(sink: FileSink)
      requires sink !in sinks && AllDistinct(sinks)
      modifies this
      ensures sinks == old(sinks) + [sink] && AllDistinct(sinks)
    {
      sinks := sinks + [sink];
    }

    /** Every sink gets the event once, however much of it the ones before it wrote. */
    method LogEvent(line: Bytes, written: seq<nat>)
      requires |written| == |sinks| && (forall i | 0 <= i < |written| :: written[i] <= |line| + 1) && AllDistinct(sinks)
      modifies sinks
      ensures forall i | 0 <= i < |sinks| :: sinks[i].content == old(sinks[i].content) + (line + [LF])[..written[i]]
    {
      for k := 0 to |sinks|
        invariant forall i | 0 <= i < k :: sinks[i].content == old(sinks[i].content) + (line + [LF])[..written[i]]
        invariant forall i | k <= i < |sinks| :: sinks[i].content == old(sinks[i].content)
      {
        sinks[k].Write(line, written[k]);
      }
    }
  }

  // ---------- reading the file ----------

  /** A line of text, or bytes that are not UTF-8, at which reading stops. */
  datatype Line = Text(text: string) | Unreadable

  /** One line off the front of the file, without its line feed. */
  function LineFramer(): Framer<Bytes> {
    s => var line := FirstLine(s); if Ended(line) then Got(line[..|line| - 1], |line|) else Stop
  }

  function WholeLines(content: Bytes): seq<Bytes> {
    Messages(Frames(LineFramer(), content))
  }

  /** What follows the last line feed. */
  function TornTail(content: Bytes): Bytes {
    Tail(LineFramer(), content)
  }

  function WithoutCr(line: Bytes): Bytes {
    if line != [] && line[|line| - 1] == 13 then line[..|line| - 1] else line
  }

  function Decode(t: Codec, line: Bytes): Line {
    if Utf8Valid(line) then Text(t.Lossy8(WithoutCr(line))) else Unreadable
  }

  function DecodeAll(t: Codec, lines: seq<Bytes>): (ds: seq<Line>)
    ensures |ds| == |lines|
  {
    seq(|lines|, i requires 0 <= i < |lines| => Decode(t, lines[i]))
  }

  /** `lines()`: the whole lines, and what follows the last line feed when it is not empty. */
  function LinesIn(t: Codec, content: Bytes): seq<Line> {
    DecodeAll(t, WholeLines(content)) + if TornTail(content) == [] then [] else [Decode(t, TornTail(content))]
  }

  /** A line is read as text exactly when it is UTF-8, the encoding of some characters; a carriage return at its
      end is no part of it. */
  lemma LinesDecode(t: Codec, line: Bytes)
    ensures Decode(t, line).Text? <==> exists text :: line == EncodeScalars(text)
    ensures Utf8Valid(line) ==> Decode(t, line + [13]) == Text(t.Lossy8(line))
    ensures Utf8Valid(line) && (line == [] || line[|line| - 1] != 13) ==> Decode(t, line) == Text(t.Lossy8(line))
  {
    hide Utf8Valid, EncodeScalars;
    Utf8ValidIff(line);
    if Utf8Valid(line) {
      AsciiIsUtf8([13]);
      ValidAppend(line, [13]);
      assert (line + [13])[..|line|] == line;
    }
  }

  type Parser = string -> Option<AuditEvent>

  /** The event on a line, if any: blank lines and lines that do not parse carry none. */
  function EventOn(parse: Parser, text: string): Option<AuditEvent> {
    if Trim(text) == "" then None else parse(Trim(text))
  }

  function ReadEvents(parse: Parser, lines: seq<Line>): seq<AuditEvent> {
    if lines == [] || lines[0].Unreadable? then []
    else
      match EventOn(parse, lines[0].text)
      case None => ReadEvents(parse, lines[1..])
      case Some(e) => [e] + ReadEvents(parse, lines[1..])
  }

  method LoadEvents(parse: Parser, lines: seq<Line>) returns (events: seq<AuditEvent>)
    ensures events == ReadEvents(parse, lines)
  {
    events := [];
    var i := 0;
    while i < |lines| && lines[i].Text?
      invariant i <= |lines|
      invariant events + ReadEvents(parse, lines[i..]) == ReadEvents(parse, lines)
    {
      assert lines[i..][1..] == lines[i + 1..];
      var text := Trim(lines[i].text);
      i := i + 1;
      if text != "" {
        var e := parse(text);
        if e.Some? {
          Assoc(events, [e.value], ReadEvents(parse, lines[i..]));
          events := events + [e.value];
        }
      }
    }
    assert ReadEvents(parse, lines[i..]) == [];
  }

  // ---------- filtering ----------

  datatype LogsQuery = LogsQuery(limit: Option<nat>, offset: Option<nat>, eventType: Option<string>,
                                 dbUser: Option<string>, clientIp: Option<string>, allowed: Option<bool>)

  /** The name an event type is serialised under. */
  function EventName(kind: EventType): string {
    match kind
    case ConnectionAttempt => "connection_attempt"
    case ConnectionAllowed => "connection_allowed"
    case ConnectionDenied => "connection_denied"
    case QueryExecuted => "query_executed"
    case QueryBlocked => "query_blocked"
    case QueryAlert => "query_alert"
    case PolicyChanged => "policy_changed"
  }

  function AsciiLower(c: char): char {
    if 'A' <= c <= 'Z' then c + ' ' else c
  }

  predicate EqIgnoreAsciiCase(a: string, b: string) {
    |a| == |b| && forall i | 0 <= i < |a| :: AsciiLower(a[i]) == AsciiLower(b[i])
  }

  predicate Keeps(t: Codec, q: LogsQuery, e: AuditEvent) {
    && (q.eventType.Some? ==> EqIgnoreAsciiCase(EventName(e.kind), q.eventType.value))
    && (q.dbUser.Some? ==> Contains(t.lower(e.dbUser), t.lower(q.dbUser.value)))
    && (q.clientIp.Some? ==> Contains(e.clientIp, q.clientIp.value))
    && (q.allowed.Some? ==> e.allowed == q.allowed.value)
  }

  function Filter(t: Codec, q: LogsQuery, events: seq<AuditEvent>): seq<AuditEvent> {
    if events == [] then []
    else (if Keeps(t, q, events[0]) then [events[0]] else []) + Filter(t, q, events[1..])
  }

  /** Equal up to the case of ASCII letters. */
  predicate SameButForCase(a: string, b: string) {
    |a| == |b| && forall i | 0 <= i < |a| ::
      || a[i] == b[i]
      || ('a' <= a[i] <= 'z' && b[i] as int + 32 == a[i] as int)
      || ('a' <= b[i] <= 'z' && a[i] as int + 32 == b[i] as int)
  }

  /** Filtering keeps exactly the events that pass every filter given: type up to case, part of the user up to the
      case map, part of the address, and the outcome. */
  lemma {:induction false} FilterKeeps(t: Codec, q: LogsQuery, events: seq<AuditEvent>, e: AuditEvent)
    ensures e in Filter(t, q, events) <==>
            && e in events
            && (q.eventType.Some? ==> SameButForCase(EventName(e.kind), q.eventType.value))
            && (q.dbUser.Some? ==> exists a, b :: t.lower(e.dbUser) == a + t.lower(q.dbUser.value) + b)
            && (q.clientIp.Some? ==> exists a, b :: e.clientIp == a + q.clientIp.value + b)
            && (q.allowed.Some? ==> e.allowed == q.allowed.value)
  {
    hide Contains, EventName;
    if q.eventType.Some? { CaseIsIgnored(EventName(e.kind), q.eventType.value); }
    if q.dbUser.Some? { ContainsIff(t.lower(e.dbUser), t.lower(q.dbUser.value)); }
    if q.clientIp.Some? { ContainsIff(e.clientIp, q.clientIp.value); }
    KeptIsIn(t, q, events, e);
  }

  lemma {:induction false} KeptIsIn(t: Codec, q: LogsQuery, events: seq<AuditEvent>, e: AuditEvent)
    ensures e in Filter(t, q, events) <==> e in events && Keeps(t, q, e)
  {
    hide Keeps;
    if events != [] {
      assert events == [events[0]] + events[1..];
      KeptIsIn(t, q, events[1..], e);
    }
  }

  lemma CaseIsIgnored(a: string, b: string)
    ensures EqIgnoreAsciiCase(a, b) <==> SameButForCase(a, b)
  {
    if |a| == |b| {
      forall i | 0 <= i < |a|
        ensures AsciiLower(a[i]) == AsciiLower(b[i]) <==>
                || a[i] == b[i]
                || ('a' <= a[i] <= 'z' && b[i] as int + 32 == a[i] as int)
                || ('a' <= b[i] <= 'z' && a[i] as int + 32 == b[i] as int)
      {
        LowerCases(a[i]);
        LowerCases(b[i]);
      }
    }
  }

  lemma LowerCases(c: char)
    ensures AsciiLower(c) as int == if 65 <= c as int <= 90 then c as int + 32 else c as int
  {
  }

  /** The variants' names as the source writes them. */
  function VariantName(kind: EventType): string {
    match kind
    case ConnectionAttempt => "ConnectionAttempt"
    case ConnectionAllowed => "ConnectionAllowed"
    case ConnectionDenied => "ConnectionDenied"
    case QueryExecuted => "QueryExecuted"
    case QueryBlocked => "QueryBlocked"
    case QueryAlert => "QueryAlert"
    case PolicyChanged => "PolicyChanged"
  }

  /** `rename_all = "snake_case"`, from the front: a capital becomes an underscore and its small letter, the very
      first only its small letter. */
  function SnakeCase(name: string, first: bool): string {
    if name == [] then []
    else
      (if 'A' <= name[0] <= 'Z' then (if first then [] else ['_']) + [AsciiLower(name[0])] else [name[0]])
      + SnakeCase(name[1..], false)
  }

  predicate NoCapital(s: string) {
    forall i | 0 <= i < |s| :: !('A' <= s[i] <= 'Z')
  }

  lemma {:induction false} SnakeCaseOfSmall(s: string, more: string)
    requires NoCapital(s)
    ensures SnakeCase(s + more, false) == s + SnakeCase(more, false)
  {
    if s == [] {
      assert s + more == more;
    } else {
      assert (s + more)[1..] == s[1..] + more;
      SnakeCaseOfSmall(s[1..], more);
    }
  }

  lemma SnakeCaseOfTwoWords(a: char, s: string, b: char, u: string)
    requires 'A' <= a <= 'Z' && 'A' <= b <= 'Z' && NoCapital(s) && NoCapital(u)
    ensures SnakeCase([a] + s + ([b] + u), true) == [AsciiLower(a)] + s + "_" + [AsciiLower(b)] + u
  {
    var name, second := [a] + s + ([b] + u), [b] + u;
    assert name[1..] == s + second;
    assert second[1..] == u + [];
    SnakeCaseOfSmall(s, second);
    SnakeCaseOfSmall(u, []);
  }

  /** An event type is filtered by its variant's name in snake case. */
  lemma EventNamesAreSnakeCase(kind: EventType)
    ensures EventName(kind) == SnakeCase(VariantName(kind), true)
  {
    hide SnakeCase, EventName, VariantName;
    match kind {
      case ConnectionAttempt => NameOfConnectionAttempt();
      case ConnectionAllowed => NameOfConnectionAllowed();
      case ConnectionDenied => NameOfConnectionDenied();
      case QueryExecuted => NameOfQueryExecuted();
      case QueryBlocked => NameOfQueryBlocked();
      case QueryAlert => NameOfQueryAlert();
      case PolicyChanged => NameOfPolicyChanged();
    }
  }

  lemma NameOfConnectionAttempt()
    ensures EventName(ConnectionAttempt) == SnakeCase(VariantName(ConnectionAttempt), true)
  {
    hide SnakeCase;
    TwoWords('C', "onnection", 'A', "ttempt", "ConnectionAttempt", "connection_attempt");
  }

  lemma NameOfConnectionAllowed()
    ensures EventName(ConnectionAllowed) == SnakeCase(VariantName(ConnectionAllowed), true)
  {
    hide SnakeCase;
    TwoWords('C', "onnection", 'A', "llowed", "ConnectionAllowed", "connection_allowed");
  }

  lemma NameOfConnectionDenied()
    ensures EventName(ConnectionDenied) == SnakeCase(VariantName(ConnectionDenied), true)
  {
    hide SnakeCase;
    TwoWords('C', "onnection", 'D', "enied", "ConnectionDenied", "connection_denied");
  }

  lemma NameOfQueryExecuted()
    ensures EventName(QueryExecuted) == SnakeCase(VariantName(QueryExecuted), true)
  {
    hide SnakeCase;
    TwoWords('Q', "uery", 'E', "xecuted", "QueryExecuted", "query_executed");
  }

  lemma NameOfQueryBlocked()
    ensures EventName(QueryBlocked) == SnakeCase(VariantName(QueryBlocked), true)
  {
    hide SnakeCase;
    TwoWords('Q', "uery", 'B', "locked", "QueryBlocked", "query_blocked");
  }

  lemma NameOfQueryAlert()
    ensures EventName(QueryAlert) == SnakeCase(VariantName(QueryAlert), true)
  {
    hide SnakeCase;
    TwoWords('Q', "uery", 'A', "lert", "QueryAlert", "query_alert");
  }

  lemma NameOfPolicyChanged()
    ensures EventName(PolicyChanged) == SnakeCase(VariantName(PolicyChanged), true)
  {
    hide SnakeCase;
    TwoWords('P', "olicy", 'C', "hanged", "PolicyChanged", "policy_changed");
  }

  lemma TwoWords(a: char, s: string, b: char, u: string, name: string, snake: string)
    requires 'A' <= a <= 'Z' && 'A' <= b <= 'Z' && NoCapital(s) && NoCapital(u)
    requires name == [a] + s + ([b] + u) && snake == [AsciiLower(a)] + s + "_" + [AsciiLower(b)] + u
    ensures SnakeCase(name, true) == snake
  {
    SnakeCaseOfTwoWords(a, s, b, u);
  }

  /** The events of a file that match a query. */
  function Seen(t: Codec, parse: Parser, q: LogsQuery, content: Bytes): seq<AuditEvent> {
    Filter(t, q, ReadEvents(parse, LinesIn(t, content)))
  }

  // ---------- one page ----------

  function Min(a: nat, b: nat): nat {
    if a < b then a else b
  }

  /** `limit.unwrap_or(100).min(1000)` */
  function EffectiveLimit(q: LogsQuery): nat {
    Min(match q.limit case Some(n) => n case None => 100, 1000)
  }

  /** `skip(offset).take(limit)` */
  function Page<T>(all: seq<T>, offset: nat, limit: nat): seq<T> {
    all[Min(offset, |all|)..Min(offset + limit, |all|)]
  }

  /** `offset + limit < total`, with the sum on a 64-bit usize. */
  predicate HasMore<T>(all: seq<T>, offset: nat, limit: nat) {
    (offset + limit) % 0x1_0000_0000_0000_0000 < |all|
  }

  method Logs(t: Codec, parse: Parser, content: Bytes, q: LogsQuery)
    returns (total: nat, page: seq<AuditEvent>, hasMore: bool)
    ensures var all := Seen(t, parse, q, content);
            var offset := match q.offset case Some(n) => n case None => 0;
            && total == |all|
            && page == Page(all, offset, EffectiveLimit(q))
            && hasMore == HasMore(all, offset, EffectiveLimit(q))
  {
    hide Filter, ReadEvents, LinesIn, EffectiveLimit;
    var limit := EffectiveLimit(q);
    var offset := match q.offset case Some(n) => n case None => 0;
    var events := LoadEvents(parse, LinesIn(t, content));
    var filtered := Filter(t, q, events);
    total := |filtered|;
    hasMore := (offset + limit) % 0x1_0000_0000_0000_0000 < total;
    page := filtered[Min(offset, total)..][..Min(limit, total - Min(offset, total))];
  }

  /** How much one page shows: what is left behind the offset, up to the limit asked for, 100 when none is, and
      never more than 1000. */
  lemma PageSizes(q: LogsQuery, all: seq<AuditEvent>, offset: nat)
    requires offset <= |all|
    ensures var page := Page(all, offset, EffectiveLimit(q));
            var left := |all| - offset;
            var wanted := if q.limit == None then 100 else if q.limit.value > 1000 then 1000 else q.limit.value;
            && |page| == (if left < wanted then left else wanted)
            && (forall i | 0 <= i < |page| :: page[i] == all[offset + i])
  {
  }

  // ---------- walking a log that stands still ----------

  /** The pages a client gets when it adds the limit to the offset until there is no more. */
  function Walk<T>(all: seq<T>, offset: nat, limit: nat): seq<seq<T>>
    requires 1 <= limit <= 1000 && |all| + 1000 < U64
    decreases |all| - offset
  {
    [Page(all, offset, limit)]
    + if offset + limit < U64 && HasMore(all, offset, limit) then Walk(all, offset + limit, limit) else []
  }

  /** The walk ends, and its pages put together are exactly the filtered events: none repeated, none skipped. */
  lemma {:induction false} WalkCoversTheLog<T>(all: seq<T>, offset: nat, limit: nat)
    requires 1 <= limit <= 1000 && |all| + 1000 < U64 && offset <= |all|
    ensures Flatten(Walk(all, offset, limit)) == all[offset..]
    decreases |all| - offset
  {
    if offset + limit < |all| {
      WalkCoversTheLog(all, offset + limit, limit);
      assert all[offset..] == Page(all, offset, limit) + all[offset + limit..];
    } else {
      assert Walk(all, offset, limit)[1..] == [];
      assert Page(all, offset, limit) == all[offset..];
    }
  }

  /** A page moves a walk forward if and only if the limit is not zero; with limit 0 the client is told there is
      more for ever on any log that has events left. */
  lemma WalkAdvancesIff<T>(all: seq<T>, offset: nat, limit: nat)
    requires offset < |all| && |all| + 1000 < U64 && limit <= 1000
    ensures Page(all, offset, limit) != [] <==> limit >= 1
    ensures limit == 0 ==> HasMore(all, offset, limit)
  {
  }

  // ---------- walking a log that grows ----------

  /** A line without an event: unparsable, or cut off inside a character. */
  predicate Invisible(parse: Parser, line: Line) {
    line.Unreadable? || EventOn(parse, line.text).None?
  }

  lemma {:induction false} ReadingIsPrefixStable(parse: Parser, a: seq<Line>, b: seq<Line>)
    ensures ReadEvents(parse, a) <= ReadEvents(parse, a + b)
    ensures (forall line | line in b :: Invisible(parse, line)) ==> ReadEvents(parse, a + b) == ReadEvents(parse, a)
  {
    if a == [] {
      assert a + b == b;
      if forall line | line in b :: Invisible(parse, line) {
        InvisibleLines(parse, b);
      }
    } else {
      assert (a + b)[1..] == a[1..] + b;
      ReadingIsPrefixStable(parse, a[1..], b);
    }
  }

  lemma {:induction false} InvisibleLines(parse: Parser, lines: seq<Line>)
    requires forall line | line in lines :: Invisible(parse, line)
    ensures ReadEvents(parse, lines) == []
  {
    if lines != [] {
      assert lines[0] in lines;
      InvisibleLines(parse, lines[1..]);
    }
  }

  lemma {:induction false} FilterAppend(t: Codec, q: LogsQuery, a: seq<AuditEvent>, b: seq<AuditEvent>)
    ensures Filter(t, q, a + b) == Filter(t, q, a) + Filter(t, q, b)
  {
    if a == [] {
      assert a + b == b;
    } else {
      assert (a + b)[1..] == a[1..] + b;
      FilterAppend(t, q, a[1..], b);
    }
  }

  /** Of a line that is only partly there a reader sees no event, unless nothing but its line feed is missing. */
  predicate Plausible(t: Codec, parse: Parser, a: Bytes, b: Bytes)
    requires a <= b
  {
    a == b || Invisible(parse, Decode(t, TornTail(a))) || TornTail(a) == [] || b[|a|] == LF
  }

  /** Appending never changes what a filter has shown: a later state of the file shows the same events first. */
  lemma SeenGrows(t: Codec, parse: Parser, q: LogsQuery, a: Bytes, b: Bytes)
    requires a <= b && Plausible(t, parse, a, b)
    ensures Seen(t, parse, q, a) <= Seen(t, parse, q, b)
  {
    hide LinesIn, ReadEvents, Filter;
    if a != b {
      var shown, more := LinesOfMore(t, parse, a, b);
      ReadingIsPrefixStable(parse, shown, more);
      var ea, eb := ReadEvents(parse, shown), ReadEvents(parse, LinesIn(t, b));
      assert ea + eb[|ea|..] == eb;
      FilterAppend(t, q, ea, eb[|ea|..]);
    }
  }

  /** The lines whose events show in a are the first lines of b. */
  lemma LinesOfMore(t: Codec, parse: Parser, a: Bytes, b: Bytes) returns (shown: seq<Line>, more: seq<Line>)
    requires a <= b && a != b && Plausible(t, parse, a, b)
    ensures LinesIn(t, b) == shown + more
    ensures ReadEvents(parse, LinesIn(t, a)) == ReadEvents(parse, shown)
  {
    hide WholeLines, TornTail, ReadEvents, Decode;
    var x, rest := TornTail(a), b[|a|..];
    assert b == a + rest;
    var whole, later := DecodeAll(t, WholeLines(a)), DecodeAll(t, WholeLines(x + rest));
    var last := if TornTail(b) == [] then [] else [Decode(t, TornTail(b))];
    LinesContinue(t, a, rest);
    if x != [] && !Invisible(parse, Decode(t, x)) {
      TornTailCompletes(a, rest);
      shown, more := whole + [Decode(t, x)], later[1..] + last;
      assert later == [Decode(t, x)] + later[1..];
    } else {
      shown, more := whole, later + last;
      ReadingIsPrefixStable(parse, shown, if x == [] then [] else [Decode(t, x)]);
      assert x == [] ==> LinesIn(t, a) == shown;
    }
  }

  lemma LinesContinue(t: Codec, a: Bytes, rest: Bytes)
    ensures DecodeAll(t, WholeLines(a + rest))
            == DecodeAll(t, WholeLines(a)) + DecodeAll(t, WholeLines(TornTail(a) + rest))
  {
    hide Decode, WholeLines, TornTail;
    WholeLinesContinue(a, rest);
  }

  lemma WholeLinesContinue(a: Bytes, rest: Bytes)
    ensures WholeLines(a + rest) == WholeLines(a) + WholeLines(TornTail(a) + rest)
  {
    hide Frames, Tail, LineFramer;
    LinesArePrefixStable();
    FramesOfMore(LineFramer(), a, rest);
  }

  /** A torn tail that only lacks its line feed is the next whole line. */
  lemma TornTailCompletes(a: Bytes, rest: Bytes)
    requires rest != [] && rest[0] == LF
    ensures var later := WholeLines(TornTail(a) + rest); later != [] && later[0] == TornTail(a)
  {
    hide TornTail, WholeLines;
    var x := TornTail(a);
    TornTailHasNoLf(a);
    FirstLineOf(x, rest[1..]);
    assert x + rest == x + [LF] + rest[1..];
    OneWholeLine(x + rest, x, rest[1..]);
  }

  lemma LinesArePrefixStable()
    ensures PrefixStable(LineFramer())
  {
    forall a: Bytes, b: Bytes | LineFramer()(a).Got? ensures LineFramer()(a + b) == LineFramer()(a) {
      LineStands(a, a + b);
    }
  }

  lemma {:induction false} TornTailHasNoLf(content: Bytes)
    ensures LF !in TornTail(content)
    decreases |content|
  {
    var line := FirstLine(content);
    if Ended(line) {
      TornTailHasNoLf(content[|line|..]);
    } else {
      LineStands(content, []);
    }
  }

  /** The pages of a walk that reads each page from its own view of the events. */
  function PagesFrom<T>(views: seq<seq<T>>, offset: nat, limit: nat): seq<seq<T>>
    decreases |views|
  {
    if views == [] then [] else [Page(views[0], offset, limit)] + PagesFrom(views[1..], offset + limit, limit)
  }

  /** The client was told "more" on every page but the last. */
  predicate ToldToGoOn<T>(views: seq<seq<T>>, offset: nat, limit: nat)
    decreases |views|
  {
    && views != [] && offset + limit < U64
    && (if |views| == 1 then !HasMore(views[0], offset, limit)
        else HasMore(views[0], offset, limit) && ToldToGoOn(views[1..], offset + limit, limit))
  }

  ghost predicate Growing<T>(views: seq<seq<T>>) {
    forall k | 0 <= k < |views| :: views[k] <= views[|views| - 1]
  }

  /** The walk reads exactly the events of the last view, from its offset on: none twice, none missed. */
  lemma {:induction false} WalkCoversTheLastView<T>(views: seq<seq<T>>, offset: nat, limit: nat)
    requires limit >= 1 && ToldToGoOn(views, offset, limit) && Growing(views)
    requires offset <= |views[|views| - 1]|
    ensures Flatten(PagesFrom(views, offset, limit)) == views[|views| - 1][offset..]
    decreases |views|
  {
    var last, page := views[|views| - 1], Page(views[0], offset, limit);
    if |views| == 1 {
      assert PagesFrom(views, offset, limit) == [page] + PagesFrom(views[1..], offset + limit, limit) == [page];
      assert [page][1..] == [];
      assert Flatten([page]) == page;
    } else {
      var rest := views[1..];
      assert views[0] <= last && offset + limit < |views[0]|;
      assert rest[|rest| - 1] == last;
      assert Growing(rest) by {
        forall k | 0 <= k < |rest| ensures rest[k] <= last { assert rest[k] == views[k + 1]; }
      }
      WalkCoversTheLastView(rest, offset + limit, limit);
      assert page == last[offset..offset + limit];
      assert last[offset..] == page + last[offset + limit..];
      assert PagesFrom(views, offset, limit)[1..] == PagesFrom(rest, offset + limit, limit);
    }
  }

  ghost predicate GrowingLog(t: Codec, parse: Parser, files: seq<Bytes>) {
    forall k | 0 <= k < |files| :: files[k] <= files[|files| - 1] && Plausible(t, parse, files[k], files[|files| - 1])
  }

  /** What the k-th request of a walk filters, when the k-th state of the file is what it reads. */
  function Views(t: Codec, parse: Parser, q: LogsQuery, files: seq<Bytes>): (views: seq<seq<AuditEvent>>)
    ensures |views| == |files|
  {
    seq(|files|, k requires 0 <= k < |files| => Seen(t, parse, q, files[k]))
  }

  /** Walking while others append: page by page, the client reads exactly the matching events of the last state
      of the file it saw. */
  lemma WalkOverGrowingLog(t: Codec, parse: Parser, q: LogsQuery, files: seq<Bytes>)
    requires EffectiveLimit(q) >= 1 && files != [] && GrowingLog(t, parse, files)
    requires ToldToGoOn(Views(t, parse, q, files), 0, EffectiveLimit(q))
    ensures Flatten(PagesFrom(Views(t, parse, q, files), 0, EffectiveLimit(q)))
            == Seen(t, parse, q, files[|files| - 1])
  {
    hide Seen, ToldToGoOn, PagesFrom, EffectiveLimit, Plausible;
    var views := Views(t, parse, q, files);
    forall k | 0 <= k < |views| ensures views[k] <= views[|views| - 1] {
      SeenGrows(t, parse, q, files[k], files[|files| - 1]);
    }
    WalkCoversTheLastView(views, 0, EffectiveLimit(q));
  }

  // ---------- from the sink to the page ----------

  /** One write to the file: the line meant, and how many bytes of it and its line feed got there. */
  datatype Write = Write(line: Bytes, written: nat)

  type Attempt = w: Write | LF !in w.line && w.written <= |w.line| + 1 witness Write([], 0)

  /** All of it got there. */
  predicate Succeeded(a: Attempt) {
    a.written == |a.line| + 1
  }

  function Out(a: Attempt): Bytes {
    (a.line + [LF])[..a.written]
  }

  function FileOf(attempts: seq<Attempt>): Bytes
  {
    if attempts == [] then []
    else Out(attempts[0]) + FileOf(attempts[1..])
  }

  /** The lines that come of it: what failed writes left behind leads the line of the next one that succeeds. */
  function Joined(front: Bytes, attempts: seq<Attempt>): seq<Bytes>
    decreases |attempts|
  {
    if attempts == [] then []
    else if Succeeded(attempts[0]) then [front + attempts[0].line] + Joined([], attempts[1..])
    else Joined(front + Out(attempts[0]), attempts[1..])
  }

  function LeftOver(front: Bytes, attempts: seq<Attempt>): Bytes
    decreases |attempts|
  {
    if attempts == [] then front
    else LeftOver(if Succeeded(attempts[0]) then [] else front + Out(attempts[0]), attempts[1..])
  }

  lemma {:induction false} LinesOfAttempts(front: Bytes, attempts: seq<Attempt>)
    requires LF !in front
    ensures WholeLines(front + FileOf(attempts)) == Joined(front, attempts)
    ensures TornTail(front + FileOf(attempts)) == LeftOver(front, attempts)
    decreases |attempts|
  {
    hide WholeLines, TornTail, FirstLine;
    var content := front + FileOf(attempts);
    if attempts == [] {
      assert content == front;
      NoWholeLine(front);
    } else {
      var a, rest := attempts[0], attempts[1..];
      if Succeeded(a) {
        var line := front + a.line;
        assert Out(a) == a.line + [LF];
        assert content == line + [LF] + FileOf(rest);
        FirstLineOf(line, FileOf(rest));
        Seam(line + [LF], FileOf(rest));
        assert (line + [LF])[..|line|] == line;
        LinesOfAttempts([], rest);
        assert [] + FileOf(rest) == FileOf(rest);
        OneWholeLine(content, line, FileOf(rest));
      } else {
        assert Out(a) == a.line[..a.written];
        Assoc(front, Out(a), FileOf(rest));
        LinesOfAttempts(front + Out(a), rest);
      }
    }
  }

  lemma NoWholeLine(s: Bytes)
    requires LF !in s
    ensures WholeLines(s) == [] && TornTail(s) == s
  {
    assert FirstLine(s) <= s;
    assert !Ended(FirstLine(s));
  }

  lemma OneWholeLine(content: Bytes, line: Bytes, rest: Bytes)
    requires FirstLine(content) == line + [LF] && content == line + [LF] + rest
    ensures WholeLines(content) == [line] + WholeLines(rest) && TornTail(content) == TornTail(rest)
  {
    hide FirstLine, Frames, Tail;
    assert (line + [LF])[..|line|] == line;
    Seam(line + [LF], rest);
    assert LineFramer()(content) == Got(line, |line| + 1);
    FramesStep(LineFramer(), content);
  }

  /** The lines of the writes that succeeded. */
  function Succeeding(attempts: seq<Attempt>): seq<Bytes> {
    if attempts == [] then []
    else (if Succeeded(attempts[0]) then [attempts[0].line] else []) + Succeeding(attempts[1..])
  }

  /** The exact line: the file holds the lines of the writes that succeeded and nothing else if and only if of every
      write that failed nothing got there. */
  lemma FileIsItsWritesIff(attempts: seq<Attempt>)
    ensures WholeLines(FileOf(attempts)) == Succeeding(attempts) && TornTail(FileOf(attempts)) == []
            <==> forall a | a in attempts :: Succeeded(a) || a.written == 0
  {
    assert [] + FileOf(attempts) == FileOf(attempts);
    LinesOfAttempts([], attempts);
    NothingJoinedIff([], attempts);
  }

  lemma {:induction false} NothingJoinedIff(front: Bytes, attempts: seq<Attempt>)
    ensures Joined(front, attempts) == Succeeding(attempts) && LeftOver(front, attempts) == []
            <==> front == [] && forall a | a in attempts :: Succeeded(a) || a.written == 0
    decreases |attempts|
  {
    if attempts != [] {
      var a, rest := attempts[0], attempts[1..];
      assert attempts == [a] + rest;
      NothingJoinedIff(if Succeeded(a) then [] else front + Out(a), rest);
      assert |Out(a)| == a.written;
      if Succeeded(a) {
        Cons(front + a.line, Joined([], rest), a.line, Succeeding(rest));
        assert front + a.line == a.line <==> front == [] by { assert |front + a.line| == |front| + |a.line|; }
        assert Succeeding(attempts) == [a.line] + Succeeding(rest);
      } else {
        assert Succeeding(attempts) == [] + Succeeding(rest) == Succeeding(rest);
      }
    }
  }

  lemma Cons<T>(x: T, xs: seq<T>, y: T, ys: seq<T>)
    ensures [x] + xs == [y] + ys <==> x == y && xs == ys
  {
    if [x] + xs == [y] + ys {
      assert ([x] + xs)[0] == ([y] + ys)[0] && ([x] + xs)[1..] == ([y] + ys)[1..];
    }
  }

  /** If parsing undoes serialising and no write fails part-way, the file shows exactly the events of the writes
      that succeeded, in order. */
  lemma LoggedEventsAreSeen(t: Codec, encode: AuditEvent -> Bytes, parse: Parser, events: seq<AuditEvent>,
                            attempts: seq<Attempt>)
    requires forall a | a in attempts :: Succeeded(a) || a.written == 0
    requires forall e | e in events :: LineShows(t, parse, encode(e), e)
    requires Succeeding(attempts) == Encoded(encode, events)
    ensures ReadEvents(parse, LinesIn(t, FileOf(attempts))) == events
  {
    hide Succeeding, FileOf, WholeLines, TornTail;
    FileIsItsWritesIff(attempts);
    EncodedEventsAreRead(t, encode, parse, events);
    var lines := DecodeAll(t, Encoded(encode, events));
    assert LinesIn(t, FileOf(attempts)) == lines + [] == lines;
  }

  predicate LineShows(t: Codec, parse: Parser, line: Bytes, e: AuditEvent) {
    Decode(t, line).Text? && EventOn(parse, Decode(t, line).text) == Some(e)
  }

  function Encoded(encode: AuditEvent -> Bytes, events: seq<AuditEvent>): (lines: seq<Bytes>)
    ensures |lines| == |events|
  {
    seq(|events|, i requires 0 <= i < |events| => encode(events[i]))
  }

  lemma {:induction false} EncodedEventsAreRead(t: Codec, encode: AuditEvent -> Bytes, parse: Parser,
                                                events: seq<AuditEvent>)
    requires forall e | e in events :: LineShows(t, parse, encode(e), e)
    ensures ReadEvents(parse, DecodeAll(t, Encoded(encode, events))) == events
  {
    if events != [] {
      var lines := DecodeAll(t, Encoded(encode, events));
      assert Encoded(encode, events)[1..] == Encoded(encode, events[1..]);
      assert lines[1..] == DecodeAll(t, Encoded(encode, events[1..]));
      assert events == [events[0]] + events[1..];
      EncodedEventsAreRead(t, encode, parse, events[1..]);
    }
  }

  /** What a write that fails part-way costs. Its front joins the next line: when the joined line is no event,
      exactly that one event is lost with it; when it is not even UTF-8, a reader sees nothing of what is logged
      from then on. */
  lemma TornWriteCosts(t: Codec, parse: Parser, a: seq<Attempt>, torn: Attempt, next: Attempt, b: seq<Attempt>)
    requires (forall x | x in a :: Succeeded(x)) && !Succeeded(torn) && Succeeded(next)
    ensures var joined := Decode(t, Out(torn) + next.line);
            var before := DecodeAll(t, Succeeding(a));
            var seen := ReadEvents(parse, LinesIn(t, FileOf(a + [torn, next] + b)));
            && (joined.Unreadable? ==> seen == ReadEvents(parse, before))
            && (Invisible(parse, joined) && joined.Text? ==>
                  seen == ReadEvents(parse, before + LinesIn(t, FileOf(b))))
  {
    hide ReadEvents, Decode, Joined, LeftOver, FileOf, WholeLines, TornTail, Succeeding, Out;
    var attempts := a + [torn, next] + b;
    assert [] + FileOf(attempts) == FileOf(attempts) && [] + FileOf(b) == FileOf(b);
    LinesOfAttempts([], attempts);
    LinesOfAttempts([], b);
    JoinedAfter(a, torn, next, b);
    var line := Out(torn) + next.line;
    var before, rest := DecodeAll(t, Succeeding(a)), LinesIn(t, FileOf(b));
    assert LinesIn(t, FileOf(attempts)) == before + [Decode(t, line)] + rest;
    if Invisible(parse, Decode(t, line)) {
      SkipInvisible(parse, before, Decode(t, line), rest);
    }
  }

  lemma {:induction false} JoinedAfter(a: seq<Attempt>, torn: Attempt, next: Attempt, b: seq<Attempt>)
    requires (forall x | x in a :: Succeeded(x)) && !Succeeded(torn) && Succeeded(next)
    ensures Joined([], a + [torn, next] + b)
            == Succeeding(a) + [Out(torn) + next.line] + Joined([], b)
    ensures LeftOver([], a + [torn, next] + b) == LeftOver([], b)
  {
    var all := a + [torn, next] + b;
    if a == [] {
      assert all == [torn] + ([next] + b) && all[1..] == [next] + b && all[1..][1..] == b;
      assert [] + Out(torn) == Out(torn);
    } else {
      assert all[1..] == a[1..] + [torn, next] + b;
      JoinedAfter(a[1..], torn, next, b);
      assert [] + a[0].line == a[0].line;
    }
  }

  lemma {:induction false} SkipInvisible(parse: Parser, before: seq<Line>, line: Line, rest: seq<Line>)
    requires Invisible(parse, line)
    ensures ReadEvents(parse, before + [line] + rest)
            == if line.Unreadable? then ReadEvents(parse, before) else ReadEvents(parse, before + rest)
  {
    if before == [] {
      assert before + [line] + rest == [line] + rest && ([line] + rest)[1..] == rest && before + rest == rest;
    } else {
      assert (before + [line] + rest)[1..] == before[1..] + [line] + rest;
      assert (before + rest)[1..] == before[1..] + rest;
      SkipInvisible(parse, before[1..], line, rest);
    }
  }
}

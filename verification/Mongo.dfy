/** One MongoDB connection: the connection check and the inspected tunnel (proxy/src/mongodb.rs). */
module Mongo {
  import opened Options
  import opened Bytes
  import opened Texts
  import opened Streams
  import opened Rules
  import opened Engine
  import opened AuditEvents
  import opened Tunnel
  import Interleaving
  import opened MongoWire

  function ConnectionRequest(ip: string): AccessRequest {
    NewRequest(ip, "unknown", DbType.MongoDB, "mongodb")
  }

  function CommandRequest(ip: string, command: string): AccessRequest {
    ConnectionRequest(ip).(query := Some(command))
  }

  function RequestId(msg: Bytes): int
    requires |msg| >= 16
  {
    I32Le(msg[4..8])
  }

  /** The command a message carries, or "" when it is no OP_MSG or none can be extracted. */
  function CommandIn(t: Codec, msg: Bytes): string
    requires |msg| >= 16
  {
    if I32Le(msg[12..16]) != OP_MSG then ""
    else
      match CommandOf(t, msg[16..])
      case None => ""
      case Some(command) => command
  }

  function ErrorText(t: Codec, reason: string): Bytes {
    t.encode8("Access denied by ganji-DAC: " + reason)
  }

  // ---------- the tunnel ----------

  /** Messages with a command are judged and audited; all others pass as read. Evaluation 0 of a session is the
      connection, evaluation k + 1 its k-th message. */
  function Inspect(t: Codec, policy: Policy, ip: string, k: nat, msg: Bytes): Decision {
    if |msg| < 16 || CommandIn(t, msg) == "" then Pass(msg)
    else
      var command := CommandIn(t, msg);
      var result := policy(k + 1, CommandRequest(ip, command));
      var event := QueryEvent(result, ip, "unknown", "mongodb", "mongodb", command);
      if result.allowed then Executed(event, msg)
      else Blocked(event, OpMsgError(RequestId(msg), ErrorText(t, result.reason)))
  }

  function Inspection(t: Codec, policy: Policy, ip: string): Inspector<Bytes> {
    (k: nat, msg: Bytes) => Inspect(t, policy, ip, k, msg)
  }

  function Judgements(t: Codec, policy: Policy, ip: string, input: Bytes): seq<Decision> {
    Decisions(Inspection(t, policy, ip), 0, Messages(Frames(MongoFramer(), input)))
  }

  function Judged(t: Codec, policy: Policy, ip: string, input: Bytes): seq<Action> {
    Program(Judgements(t, policy, ip, input))
  }

  method HandleMessage(t: Codec, policy: Policy, ip: string, k: nat, msg: Bytes, out: Channels)
    modifies out
    ensures out.trace == old(out.trace) + Actions(Inspection(t, policy, ip)(k, msg))
  {
    hide CommandOf, OpMsgError;
    if |msg| < 16 {
      out.Forward(msg);
      return;
    }
    var opCode := I32Le(msg[12..16]);
    var requestId := I32Le(msg[4..8]);
    if opCode == OP_MSG {
      var extracted := ExtractMongoCommand(t, msg[16..]);
      var command := if extracted.Some? then extracted.value else "";
      if command != "" {
        var result := policy(k + 1, CommandRequest(ip, command));
        out.Record(QueryEvent(result, ip, "unknown", "mongodb", "mongodb", command));
        if !result.allowed {
          var reply := BuildOpMsgError(requestId, ErrorText(t, result.reason));
          out.Reply(reply);
          return;
        }
      }
    }
    out.Forward(msg);
  }

  lemma NextMessage(s: Bytes)
    ensures var r := ReadMongo(s);
            Messages(Frames(MongoFramer(), s))
            == if r.Stop? then [] else [r.msg] + Messages(Frames(MongoFramer(), s[r.used..]))
  {
    hide ReadMongo;
    assert MongoFramer()(s) == ReadMongo(s);
  }

  lemma JudgedUnfolds(t: Codec, policy: Policy, ip: string, input: Bytes)
    ensures Judged(t, policy, ip, input)
            == Program(Decisions(Inspection(t, policy, ip), 0, Messages(Frames(MongoFramer(), input))))
  {
    hide Program, Decisions, Frames;
  }

  method TunnelWithInspection(t: Codec, policy: Policy, ip: string, client: Reader, out: Channels)
    modifies client, out
    ensures out.trace == old(out.trace) + Judged(t, policy, ip, old(client.rest))
  {
    hide *;
    ghost var inspect, before := Inspection(t, policy, ip), out.trace;
    ghost var all := Messages(Frames(MongoFramer(), client.rest));
    ServedNone(inspect, all, before);
    JudgedUnfolds(t, policy, ip, client.rest);
    var k := 0;
    while true
      invariant Served(inspect, all, k, before, out.trace)
      invariant k <= |all| && all[k..] == Messages(Frames(MongoFramer(), client.rest))
      decreases |all| - k
    {
      NextMessage(client.rest);
      var msg := ReadMongoMessage(client);
      if msg.None? {
        ServedAll(inspect, all, before, out.trace);
        return;
      }
      assert msg.value == all[k..][0] == all[k];
      ServedOneMore(inspect, all, k, before, out.trace);
      HandleMessage(t, policy, ip, k, msg.value, out);
      assert all[k..][1..] == all[k + 1..];
      k := k + 1;
    }
  }

  // ---------- the connection ----------

  function Connection(policy: Policy, ip: string): AccessResult {
    policy(0, ConnectionRequest(ip))
  }

  function Opening(policy: Policy, ip: string): Action {
    Log(ConnectionEvent(Connection(policy, ip), ip, "unknown", "mongodb", "mongodb"))
  }

  /** Everything one connection does with a client's bytes. */
  function Session(t: Codec, policy: Policy, ip: string, input: Bytes): seq<Action> {
    [Opening(policy, ip)] + if Connection(policy, ip).allowed then Judged(t, policy, ip, input) else []
  }

  method HandleConnection(t: Codec, policy: Policy, ip: string, client: Reader, out: Channels)
    modifies client, out
    ensures out.trace == old(out.trace) + Session(t, policy, ip, old(client.rest))
  {
    hide Judged;
    var result := policy(0, ConnectionRequest(ip));
    ghost var before, input := out.trace, client.rest;
    out.Record(ConnectionEvent(result, ip, "unknown", "mongodb", "mongodb"));
    if result.allowed {
      TunnelWithInspection(t, policy, ip, client, out);
      Assoc(before, [Opening(policy, ip)], Judged(t, policy, ip, input));
    }
  }

  // ---------- what a session keeps ----------

  /** The message goes on exactly when the engine allowed its command; the event says which command it was, what
      was decided and why; a refusal names the request and carries the reason to the client. */
  ghost predicate JudgedAs(t: Codec, ip: string, msg: Bytes, result: AccessResult, d: Decision)
    requires |msg| >= 16
  {
    && !d.Pass?
    && (d.Executed? <==> result.allowed)
    && d.event == AuditEvent(if result.allowed then QueryExecuted else QueryBlocked, ip, "unknown", "mongodb", "mongodb",
                             Some(CommandIn(t, msg)), result.allowed, result.reason, result.matchedRule)
    && (d.Blocked? ==>
          d.reply == OpMsgError(I32Le(msg[4..8]), t.encode8("Access denied by ganji-DAC: " + result.reason)))
  }

  /** On arbitrary client bytes: every byte is part of one message, in order, or of one unfinished tail; each
      message is passed, forwarded after its event, or answered with one error frame that names its request. */
  lemma SessionConserves(t: Codec, policy: Policy, ip: string, input: Bytes)
    ensures var frames := Frames(MongoFramer(), input);
            var ds := Judgements(t, policy, ip, input);
            && Flatten(Wires(frames)) + Tail(MongoFramer(), input) == input
            && MongoFramer()(Tail(MongoFramer(), input)).Stop?
            && |ds| == |frames|
            && (forall i | 0 <= i < |frames| ::
                  && frames[i].wire == frames[i].msg && |frames[i].msg| >= 16
                  && (!ds[i].Blocked? ==> ds[i].raw == frames[i].wire)
                  && if CommandIn(t, frames[i].msg) == "" then ds[i].Pass?
                     else JudgedAs(t, ip, frames[i].msg,
                                   policy(i + 1, AccessRequest(ip, "unknown", DbType.MongoDB, "mongodb",
                                                               Some(CommandIn(t, frames[i].msg)), None)), ds[i]))
            && Ups(Judged(t, policy, ip, input)) == Forwarded(ds)
            && Logs(Judged(t, policy, ip, input)) == Events(ds)
            && Downs(Judged(t, policy, ip, input)) == Replies(ds)
  {
    hide CommandIn, OpMsgError, ReadMongo;
    FramesConserve(MongoFramer(), input);
    MongoFramerProgresses();
    TailStops(MongoFramer(), input);
    MessagesAreWires(input);
    ProgramProjects(Judgements(t, policy, ip, input));
  }

  /** The command a server finds in an OP_MSG, walking all its sections; "" when there is none. */
  function ServerCommand(t: Codec, msg: Bytes): string
    requires |msg| >= 16
  {
    if I32Le(msg[12..16]) != 2013 then ""
    else
      match BodyCommand(t, msg[16..])
      case None => ""
      case Some(command) => command
  }

  /** The exact line: a message with a command is judged under that command if and only if its body is the first
      section; else it passes without evaluation and event. */
  lemma CommandIsJudgedIff(t: Codec, policy: Policy, ip: string, k: nat, msg: Bytes)
    requires |msg| >= 16 && ServerCommand(t, msg) != ""
    ensures |msg| > 20
    ensures msg[20] == 0 <==> !Inspect(t, policy, ip, k, msg).Pass?
    ensures msg[20] == 0 <==> CommandIn(t, msg) == ServerCommand(t, msg)
  {
    hide CommandOf, OpMsgError, ErrorText, FirstKey, BodyAt;
    var p := msg[16..];
    assert BodyCommand(t, p).Some?;
    BodyIsThere(t, p);
    ProxyFindsBodyIff(t, p);
    assert p[4] == msg[20];
  }

  lemma BodyIsThere(t: Codec, p: Bytes)
    requires BodyCommand(t, p).Some?
    ensures |p| > 4
  {
  }

  /** A connection begins with the event of its evaluation; a denied one goes no further. */
  lemma ConnectionIsLogged(t: Codec, policy: Policy, ip: string, input: Bytes)
    ensures var result := policy(0, AccessRequest(ip, "unknown", DbType.MongoDB, "mongodb", None, None));
            var trace := Session(t, policy, ip, input);
            && trace != []
            && trace[0] == Log(AuditEvent(if result.allowed then ConnectionAllowed else ConnectionDenied, ip, "unknown",
                                          "mongodb", "mongodb", None, result.allowed, result.reason, result.matchedRule))
            && trace[1..] == if result.allowed then Judged(t, policy, ip, input) else []
  {
  }

  /** The command of a message is what extraction finds in an OP_MSG, op code 2013; other messages carry none. */
  lemma OnlyOpMsgCarriesACommand(t: Codec, msg: Bytes, command: string)
    requires |msg| >= 16 && command != ""
    ensures CommandIn(t, msg) == command <==> I32Le(msg[12..16]) == 2013 && CommandOf(t, msg[16..]) == Some(command)
  {
  }

  /** The error frame answers the very request id that was read: the four bytes are copied unchanged. */
  lemma ReplyNamesItsRequest(msg: Bytes, text: Bytes)
    requires |msg| >= 16
    ensures OpMsgError(RequestId(msg), text)[8..12] == msg[4..8]
  {
    hide PutI32Le, PutU32Le, Document;
    PutI32LeOfI32Le(msg[4..8]);
    var rest := PutU32Le(0) + [0] + Document(ErrorElements(text));
    HeaderFields(57 + |text|, 0, RequestId(msg), OpMsgError(RequestId(msg), text), rest);
  }

  lemma {:induction false} MessagesAreWires(s: Bytes)
    ensures forall i | 0 <= i < |Frames(MongoFramer(), s)| ::
              && Frames(MongoFramer(), s)[i].wire == Frames(MongoFramer(), s)[i].msg
              && |Frames(MongoFramer(), s)[i].msg| >= 16
    decreases |s|
  {
    hide ReadMongo;
    assert MongoFramer()(s) == ReadMongo(s);
    if ReadMongo(s).Got? {
      MessagesCarryTheirLength(s);
      MessagesAreWires(s[ReadMongo(s).used..]);
    }
  }

  /** Error texts are short enough for the reader's 48 MiB limit. */
  predicate RefusalsFit(t: Codec, ds: seq<Decision>) {
    forall i | 0 <= i < |ds| && ds[i].Blocked? :: |ErrorText(t, ds[i].event.reason)| <= 50331591
  }

  /** A reader with the proxy's limit reads every error frame of a session as it was built, whatever follows, if
      and only if every error text has at most 50331591 bytes. */
  lemma RepliesReadBackIff(t: Codec, policy: Policy, ip: string, input: Bytes)
    ensures var ds := Judgements(t, policy, ip, input);
            (forall r | r in Replies(ds) :: ReadsAs(MongoFramer(), Frame(r, r))) <==> RefusalsFit(t, ds)
  {
    hide ErrorText, OpMsgError, ReadMongo, CommandIn, RequestId, Frames, Replies;
    var ds, frames := Judgements(t, policy, ip, input), Frames(MongoFramer(), input);
    forall i | 0 <= i < |ds| && ds[i].Blocked?
      ensures ds[i].reply in Replies(ds)
      ensures ReadsAs(MongoFramer(), Frame(ds[i].reply, ds[i].reply))
              <==> |ErrorText(t, ds[i].event.reason)| <= 50331591
    {
      BlockedIsAnswered(ds, i);
      assert ds[i].reply == OpMsgError(RequestId(frames[i].msg), ErrorText(t, ds[i].event.reason));
      ErrorReplyIsFrameIff(RequestId(frames[i].msg), ErrorText(t, ds[i].event.reason));
    }
    forall r | r in Replies(ds) ensures exists i :: 0 <= i < |ds| && ds[i].Blocked? && ds[i].reply == r {
      RepliesComeFrom(ds, r);
    }
  }

  lemma RepliesAreWhole(t: Codec, policy: Policy, ip: string, input: Bytes)
    requires RefusalsFit(t, Judgements(t, policy, ip, input))
    ensures forall r | r in Replies(Judgements(t, policy, ip, input)) :: Interleaving.Whole(MongoFramer(), r)
  {
    hide RefusalsFit, Judgements, ReadMongo;
    RepliesReadBackIff(t, policy, ip, input);
    forall r | r in Replies(Judgements(t, policy, ip, input)) ensures Interleaving.Whole(MongoFramer(), r) {
      FramesOfOne(MongoFramer(), Frame(r, r), []);
      assert r + [] == r;
    }
  }

  /** Under every schedule of the two tasks, when the server's chunks are whole messages and error texts fit, the
      client reads the merged stream message by message: the frames of the finished writes, in the order of the
      writes, and then what is readable of the write under way. Among the finished writes are the error frames
      of the messages blocked so far and the chunks copied so far, each in order. */
  lemma ClientStreamParses(t: Codec, policy: Policy, ip: string, input: Bytes, chunks: seq<Bytes>,
                           schedule: seq<Interleaving.Step>)
    requires RefusalsFit(t, Judgements(t, policy, ip, input))
    requires forall c | c in chunks :: Interleaving.Whole(MongoFramer(), c)
    ensures var prog := Judged(t, policy, ip, input);
            var s := Interleaving.Run(prog, chunks, Interleaving.INIT, schedule);
            && Interleaving.InBounds(prog, chunks, s)
            && Interleaving.By(Interleaving.Inspecting, s.done) == Downs(prog[..s.pc])
            && Interleaving.By(Interleaving.Copying, s.done) == chunks[..s.chunk]
            && Frames(MongoFramer(), s.client)
               == Interleaving.FramesOfSegments(MongoFramer(), s.done)
                  + Frames(MongoFramer(), Interleaving.InFlight(prog, chunks, s))
            && Tail(MongoFramer(), s.client) == Tail(MongoFramer(), Interleaving.InFlight(prog, chunks, s))
  {
    hide RefusalsFit, Judgements, ReadMongo, Interleaving.Run, Interleaving.Whole, Interleaving.FramesOfSegments;
    hide Interleaving.By, Interleaving.InFlight, Frames, Tail;
    ProgramProjects(Judgements(t, policy, ip, input));
    RepliesAreWhole(t, policy, ip, input);
    MongoIsPrefixStable();
    Interleaving.MergedStreamParses(MongoFramer(), Judged(t, policy, ip, input), chunks, schedule);
  }

  /** A session that refuses something has all its error frames start at message boundaries of the client's
      stream, under every schedule, if and only if every chunk read from the server is made of whole messages. */
  lemma RepliesAlwaysAlignedIff(t: Codec, policy: Policy, ip: string, input: Bytes, chunks: seq<Bytes>)
    requires RefusalsFit(t, Judgements(t, policy, ip, input)) && Replies(Judgements(t, policy, ip, input)) != []
    ensures Interleaving.AlwaysAligned(MongoFramer(), Judged(t, policy, ip, input), chunks)
            <==> forall c | c in chunks :: Interleaving.Whole(MongoFramer(), c)
  {
    hide RefusalsFit, Judgements, ReadMongo, Interleaving.AlwaysAligned, Interleaving.Whole;
    ProgramProjects(Judgements(t, policy, ip, input));
    RepliesAreWhole(t, policy, ip, input);
    MongoIsPrefixStable();
    Interleaving.AlwaysAlignedIff(MongoFramer(), Judged(t, policy, ip, input), chunks);
  }

  /** Forwarded messages are frames by themselves: the server's reading of the stream is the proxy's. */
  lemma ForwardedStands(t: Codec, policy: Policy, ip: string, input: Bytes)
    ensures forall m | m in Forwarded(Judgements(t, policy, ip, input)) :: StandsAs(MongoFramer(), m, m) && |m| >= 16
  {
    hide CommandIn, OpMsgError, ErrorText, RequestId, StandsAs, Frames;
    var ds, frames := Judgements(t, policy, ip, input), Frames(MongoFramer(), input);
    MessagesStand(input);
    forall m | m in Forwarded(ds) ensures StandsAs(MongoFramer(), m, m) && |m| >= 16 {
      ForwardedComesFrom(ds, m);
      var i :| 0 <= i < |ds| && !ds[i].Blocked? && ds[i].raw == m;
      assert frames[i].msg == m;
    }
  }

  lemma {:induction false} MessagesStand(s: Bytes)
    ensures forall i | 0 <= i < |Frames(MongoFramer(), s)| ::
              var m := Frames(MongoFramer(), s)[i].msg; StandsAs(MongoFramer(), m, m) && |m| >= 16
    decreases |s|
  {
    assert MongoFramer()(s) == ReadMongo(s);
    if ReadMongo(s).Got? {
      var m := ReadMongo(s).msg;
      assert m[..4] == s[..4] && m[..|m|] == m;
      assert MongoFramer()(m) == ReadMongo(m) == Got(m, |m|);
      hide ReadMongo;
      MessagesStand(s[ReadMongo(s).used..]);
    }
  }
}

/** One MSSQL connection: PRELOGIN, LOGIN7 and the inspected tunnel (proxy/src/mssql.rs). */
module Mssql {
  import opened Options
  import opened Bytes
  import opened Texts
  import opened Streams
  import opened Rules
  import opened Engine
  import opened AuditEvents
  import opened Tunnel
  import Interleaving
  import opened TdsPackets
  import opened TdsErrors

  /** Who the session is for, as LOGIN7 names it. */
  datatype Login = Login(ip: string, user: string, database: string)

  function ConnectionRequest(who: Login): AccessRequest {
    NewRequest(who.ip, who.user, DbType.MSSQL, who.database)
  }

  function BatchRequest(who: Login, query: string): AccessRequest {
    ConnectionRequest(who).(query := Some(query))
  }

  predicate IsBatch(packet: Bytes) {
    packet != [] && packet[0] == SQL_BATCH
  }

  // ---------- the tunnel ----------

  /** SQL batches are judged and audited; every other message passes as read. Evaluation 0 of a session is the
      connection, evaluation k + 1 its k-th message. */
  function Inspect(t: Codec, policy: Policy, who: Login, k: nat, packet: Bytes): Decision {
    if !IsBatch(packet) then Pass(packet)
    else
      var query := ExtractQuery(t, packet);
      var result := policy(k + 1, BatchRequest(who, query));
      var event := QueryEvent(result, who.ip, who.user, "mssql", who.database, query);
      if result.allowed then Executed(event, packet) else Blocked(event, ErrorPacket(t.encode16(result.reason)))
  }

  function Inspection(t: Codec, policy: Policy, who: Login): Inspector<Bytes> {
    (k: nat, packet: Bytes) => Inspect(t, policy, who, k, packet)
  }

  function Judgements(t: Codec, policy: Policy, who: Login, input: Bytes): seq<Decision> {
    Decisions(Inspection(t, policy, who), 0, Messages(Frames(MessageFramer(), input)))
  }

  function Judged(t: Codec, policy: Policy, who: Login, input: Bytes): seq<Action> {
    Program(Judgements(t, policy, who, input))
  }

  method HandleMessage(t: Codec, policy: Policy, who: Login, k: nat, packet: Bytes, out: Channels)
    modifies out
    ensures out.trace == old(out.trace) + Actions(Inspection(t, policy, who)(k, packet))
  {
    hide ExtractQuery, ErrorPacket;
    if IsBatch(packet) {
      var query := ExtractQuery(t, packet);
      var result := policy(k + 1, BatchRequest(who, query));
      out.Record(QueryEvent(result, who.ip, who.user, "mssql", who.database, query));
      if !result.allowed {
        var reply := BuildTdsErrorPacket(t, result.reason);
        out.Reply(reply);
        return;
      }
    }
    out.Forward(packet);
  }

  lemma NextMessage(s: Bytes)
    ensures var r := ReadPackets([], s);
            Messages(Frames(MessageFramer(), s))
            == if r.Failed? then [] else [r.msg] + Messages(Frames(MessageFramer(), r.rest))
  {
    hide ReadPackets;
    assert MessageFramer()(s) == ReadMessage(s);
    var r := ReadPackets([], s);
    if r.Done? {
      RestOfMessage([], s);
    }
  }

  lemma {:induction false} RestOfMessage(full: Bytes, s: Bytes)
    requires ReadPackets(full, s).Done?
    ensures s[|s| - |ReadPackets(full, s).rest|..] == ReadPackets(full, s).rest
  {
    hide Header;
    var ps := PacketsDecode(full, s);
    Seam(Wire(ps), ReadPackets(full, s).rest);
  }

  lemma JudgedUnfolds(t: Codec, policy: Policy, who: Login, input: Bytes)
    ensures Judged(t, policy, who, input)
            == Program(Decisions(Inspection(t, policy, who), 0, Messages(Frames(MessageFramer(), input))))
  {
    hide Program, Decisions, Frames;
  }

  method TunnelWithInspection(t: Codec, policy: Policy, who: Login, client: Reader, out: Channels)
    modifies client, out
    ensures out.trace == old(out.trace) + Judged(t, policy, who, old(client.rest))
  {
    hide *;
    ghost var inspect, before := Inspection(t, policy, who), out.trace;
    ghost var all := Messages(Frames(MessageFramer(), client.rest));
    ServedNone(inspect, all, before);
    JudgedUnfolds(t, policy, who, client.rest);
    var k := 0;
    while true
      invariant Served(inspect, all, k, before, out.trace)
      invariant k <= |all| && all[k..] == Messages(Frames(MessageFramer(), client.rest))
      decreases |all| - k
    {
      NextMessage(client.rest);
      var packet := ReadTdsMessage(client);
      if packet.None? {
        ServedAll(inspect, all, before, out.trace);
        return;
      }
      assert packet.value == all[k..][0] == all[k];
      ServedOneMore(inspect, all, k, before, out.trace);
      HandleMessage(t, policy, who, k, packet.value, out);
      assert all[k..][1..] == all[k + 1..];
      k := k + 1;
    }
  }

  // ---------- the connection ----------

  /** The login a packet carries; anything but LOGIN7 gets the defaults. */
  function LoginOf(t: Codec, ip: string, packet: Bytes): Login {
    if packet != [] && packet[0] == LOGIN7 then
      var (user, database) := ParseLogin7(t, packet);
      Login(ip, user, database)
    else Login(ip, "unknown", "mssql")
  }

  function Opening(result: AccessResult, who: Login): Action {
    Log(ConnectionEvent(result, who.ip, who.user, "mssql", who.database))
  }

  ghost predicate EncryptionOn(resp: Bytes) {
    |resp| > HEADER_LEN && IsEncrypted(resp[HEADER_LEN..])
  }

  /** Everything one connection does, given what client and server will send. After an encrypted PRELOGIN answer
      the decision is logged and the tunnel becomes transparent, whatever the decision; those bytes are not part
      of this model. */
  ghost function Session(t: Codec, policy: Policy, ip: string, client: Bytes, server: Bytes): seq<Action> {
    match ReadPackets([], client)
    case Failed => []
    case Done(prelogin, client1) =>
      [Up(prelogin)]
      + match ReadPackets([], server)
        case Failed => []
        case Done(resp, server1) => [Down(resp)] + AfterPrelogin(t, policy, ip, resp, client1, server1)
  }

  ghost function AfterPrelogin(t: Codec, policy: Policy, ip: string, resp: Bytes, client: Bytes, server: Bytes)
    : seq<Action>
  {
    var nobody := Login(ip, "unknown", "mssql");
    if EncryptionOn(resp) then [Opening(policy(0, ConnectionRequest(nobody)), nobody)]
    else
      match ReadPackets([], client)
      case Failed => []
      case Done(login, client1) => PlainLogin(t, policy, LoginOf(t, ip, login), login, client1, server)
  }

  ghost function PlainLogin(t: Codec, policy: Policy, who: Login, login: Bytes, client: Bytes, server: Bytes)
    : seq<Action>
  {
    var result := policy(0, ConnectionRequest(who));
    [Opening(result, who)]
    + if !result.allowed then [Down(ErrorPacket(t.encode16(result.reason)))]
      else [Up(login)] + match ReadPackets([], server)
                         case Failed => []
                         case Done(resp, _) => [Down(resp)] + Judged(t, policy, who, client)
  }

  method HandleConnection(t: Codec, policy: Policy, ip: string, client: Reader, server: Reader, out: Channels)
    requires client != server
    modifies client, server, out
    ensures out.trace == old(out.trace) + Session(t, policy, ip, old(client.rest), old(server.rest))
  {
    hide ReadPackets, AfterPrelogin;
    ghost var start := out.trace;
    var prelogin := ReadTdsMessage(client);
    if prelogin.None? {
      return;
    }
    out.Forward(prelogin.value);
    var resp := ReadTdsMessage(server);
    if resp.None? {
      return;
    }
    out.Reply(resp.value);
    ghost var tail := AfterPrelogin(t, policy, ip, resp.value, client.rest, server.rest);
    HandleLogin(t, policy, ip, resp.value, client, server, out);
    assert start + [Up(prelogin.value)] + [Down(resp.value)] + tail
        == start + ([Up(prelogin.value)] + ([Down(resp.value)] + tail));
  }

  method HandleLogin(t: Codec, policy: Policy, ip: string, resp: Bytes, client: Reader, server: Reader, out: Channels)
    requires client != server
    modifies client, server, out
    ensures out.trace == old(out.trace) + AfterPrelogin(t, policy, ip, resp, old(client.rest), old(server.rest))
  {
    hide ReadPackets, ParseLogin7, Judged, ErrorPacket, IsEncrypted;
    ghost var start := out.trace;
    var encrypted := IsEncryptedPrelogin(resp);
    if encrypted {
      var nobody := Login(ip, "unknown", "mssql");
      out.Record(Opening(policy(0, ConnectionRequest(nobody)), nobody).event);
      return;
    }
    var login := ReadTdsMessage(client);
    if login.None? {
      return;
    }
    var who := LoginOf(t, ip, login.value);
    var result := policy(0, ConnectionRequest(who));
    ghost var open := Opening(result, who);
    out.Record(Opening(result, who).event);
    if !result.allowed {
      var reply := BuildTdsErrorPacket(t, result.reason);
      out.Reply(reply);
      assert start + [open] + [Down(reply)] == start + ([open] + [Down(reply)]);
      return;
    }
    out.Forward(login.value);
    var answer := ReadTdsMessage(server);
    if answer.None? {
      assert start + [open] + [Up(login.value)] == start + ([open] + ([Up(login.value)] + []));
      return;
    }
    out.Reply(answer.value);
    ghost var rest := Judged(t, policy, who, client.rest);
    TunnelWithInspection(t, policy, who, client, out);
    assert start + [open] + [Up(login.value)] + [Down(answer.value)] + rest
        == start + ([open] + ([Up(login.value)] + ([Down(answer.value)] + rest)));
  }

  // ---------- what a connection keeps ----------

  /** Apart from the client's first message, which is forwarded whatever its kind, nothing goes upstream at any
      point of any connection, unless the third action was the audit event of an allowed connection evaluated
      for the second message: for its user and database when it is LOGIN7, else for the defaults. */
  lemma NothingUpstreamBeforeApproval(t: Codec, policy: Policy, ip: string, client: Bytes, server: Bytes, i: nat)
    ensures var s := Session(t, policy, ip, client, server);
            0 < i < |s| && s[i].Up? ==>
              && i > 2 && s[2].Log? && s[2].event.kind == ConnectionAllowed && s[2].event.allowed
              && ReadPackets([], client).Done? && ReadPackets([], ReadPackets([], client).rest).Done?
              && var login := ReadPackets([], ReadPackets([], client).rest).msg;
                 && s[3] == Up(login)
                 && policy(0, ConnectionRequest(LoginOf(t, ip, login))).allowed
                 && s[2] == Opening(policy(0, ConnectionRequest(LoginOf(t, ip, login))), LoginOf(t, ip, login))
  {
    hide ReadPackets, Judged, ErrorPacket, ParseLogin7, IsEncrypted;
  }

  /** The messages sent upstream before the tunnel: the first, of whatever kind, and after a plain answer the
      second, when the policy allows the connection. */
  ghost function OpeningSent(t: Codec, policy: Policy, ip: string, client: Bytes, server: Bytes): seq<Bytes> {
    match ReadPackets([], client)
    case Failed => []
    case Done(first, client1) =>
      [first] + match ReadPackets([], server)
                case Failed => []
                case Done(resp, _) => LoginSent(t, policy, ip, resp, client1)
  }

  ghost function LoginSent(t: Codec, policy: Policy, ip: string, resp: Bytes, client: Bytes): (sent: seq<Bytes>)
    ensures |sent| <= 1
  {
    if EncryptionOn(resp) then []
    else
      match ReadPackets([], client)
      case Failed => []
      case Done(login, _) => if policy(0, ConnectionRequest(LoginOf(t, ip, login))).allowed then [login] else []
  }

  /** Who the tunnel serves and what the client sends to it, when the connection gets that far. */
  ghost function TunnelOf(t: Codec, policy: Policy, ip: string, client: Bytes, server: Bytes): Option<(Login, Bytes)> {
    match ReadPackets([], client)
    case Failed => None
    case Done(_, client1) =>
      match ReadPackets([], server)
      case Failed => None
      case Done(resp, server1) =>
        if LoginSent(t, policy, ip, resp, client1) == [] || ReadPackets([], server1).Failed? then None
        else
          var login := ReadPackets([], client1);
          Some((LoginOf(t, ip, login.msg), login.rest))
  }

  ghost function TunnelSent(t: Codec, policy: Policy, tunnel: Option<(Login, Bytes)>): seq<Bytes> {
    match tunnel
    case None => []
    case Some((who, input)) => Forwarded(Judgements(t, policy, who, input))
  }

  /** What the server makes of a whole connection: it reads the very messages the proxy sent if and only if each
      came in a single packet; a first message that came in several can hold further ones for the server.
      Without an approved second message it is sent the first and nothing else. */
  lemma ServerReadsConnectionIff(t: Codec, policy: Policy, ip: string, client: Bytes, server: Bytes)
    ensures var sent := Ups(Session(t, policy, ip, client, server));
            && sent == OpeningSent(t, policy, ip, client, server)
                       + TunnelSent(t, policy, TunnelOf(t, policy, ip, client, server))
            && (Received(MessageFramer(), Flatten(sent)) == sent <==> forall m | m in sent :: OnePacket(m))
  {
    hide OnePacket, Received, Reassembled, MessageFramer, Flatten, ReadPackets, Judged, Session, OpeningSent, TunnelOf;
    hide TunnelSent;
    SentOnConnection(t, policy, ip, client, server);
    ForwardingKeepsMessagesIff(Ups(Session(t, policy, ip, client, server)));
  }

  lemma SentOnConnection(t: Codec, policy: Policy, ip: string, client: Bytes, server: Bytes)
    ensures var sent := Ups(Session(t, policy, ip, client, server));
            && sent == OpeningSent(t, policy, ip, client, server)
                       + TunnelSent(t, policy, TunnelOf(t, policy, ip, client, server))
            && (forall m | m in sent :: Reassembled(m))
  {
    hide Reassembled, ReadPackets, AfterPrelogin, Ups, IsEncrypted, LoginOf, LoginSent, Judgements;
    UpsOfNothing();
    var r := ReadPackets([], client);
    if r.Done? {
      ReadIsReassembled(client);
      var answer := ReadPackets([], server);
      var rest := if answer.Failed? then []
                  else [Down(answer.msg)] + AfterPrelogin(t, policy, ip, answer.msg, r.rest, answer.rest);
      assert Session(t, policy, ip, client, server) == [Up(r.msg)] + rest;
      UpsCons(Up(r.msg), rest);
      if answer.Done? {
        UpsCons(Down(answer.msg), AfterPrelogin(t, policy, ip, answer.msg, r.rest, answer.rest));
        SentAfterPrelogin(t, policy, ip, answer.msg, r.rest, answer.rest);
      }
    }
  }

  lemma UpsOfNothing()
    ensures Ups([]) == []
  {
  }

  lemma SentAfterPrelogin(t: Codec, policy: Policy, ip: string, resp: Bytes, client: Bytes, server: Bytes)
    ensures var sent := Ups(AfterPrelogin(t, policy, ip, resp, client, server));
            var opening := LoginSent(t, policy, ip, resp, client);
            && (forall m | m in sent :: Reassembled(m))
            && sent == opening + if opening == [] || ReadPackets([], server).Failed? then []
                                 else var login := ReadPackets([], client);
                                      Forwarded(Judgements(t, policy, LoginOf(t, ip, login.msg), login.rest))
  {
    hide Reassembled, ReadPackets, PlainLogin, Ups, IsEncrypted, LoginOf, Judgements;
    UpsOfNothing();
    if EncryptionOn(resp) {
      var nobody := Login(ip, "unknown", "mssql");
      SingleProjects(Opening(policy(0, ConnectionRequest(nobody)), nobody));
    } else if ReadPackets([], client).Done? {
      var r := ReadPackets([], client);
      ReadIsReassembled(client);
      SentAfterLogin(t, policy, LoginOf(t, ip, r.msg), r.msg, r.rest, server);
    }
  }

  lemma SentAfterLogin(t: Codec, policy: Policy, who: Login, login: Bytes, client: Bytes, server: Bytes)
    requires Reassembled(login)
    ensures var sent := Ups(PlainLogin(t, policy, who, login, client, server));
            && (forall m | m in sent :: Reassembled(m))
            && sent == if !policy(0, ConnectionRequest(who)).allowed then []
                       else [login] + if ReadPackets([], server).Failed? then []
                                      else Forwarded(Judgements(t, policy, who, client))
  {
    hide Reassembled, ReadPackets, Judged, ErrorPacket, Ups, Judgements;
    var result := policy(0, ConnectionRequest(who));
    var answer := ReadPackets([], server);
    UpsOfNothing();
    if !result.allowed {
      PairProjects(Opening(result, who), Down(ErrorPacket(t.encode16(result.reason))));
      SingleProjects(Opening(result, who));
      assert PlainLogin(t, policy, who, login, client, server)
          == [Opening(result, who), Down(ErrorPacket(t.encode16(result.reason)))];
    } else {
      var rest := if answer.Done? then [Down(answer.msg)] + Judged(t, policy, who, client) else [];
      assert PlainLogin(t, policy, who, login, client, server) == [Opening(result, who)] + ([Up(login)] + rest);
      UpsCons(Opening(result, who), [Up(login)] + rest);
      UpsCons(Up(login), rest);
      if answer.Done? {
        UpsCons(Down(answer.msg), Judged(t, policy, who, client));
        SentByTunnel(t, policy, who, client);
      }
    }
  }

  lemma SentByTunnel(t: Codec, policy: Policy, who: Login, input: Bytes)
    ensures Ups(Judged(t, policy, who, input)) == Forwarded(Judgements(t, policy, who, input))
    ensures forall m | m in Forwarded(Judgements(t, policy, who, input)) :: Reassembled(m)
  {
    hide FromPackets, ErrorPacket, ExtractQuery, Reassembled, Frames;
    var ds, frames := Judgements(t, policy, who, input), Frames(MessageFramer(), input);
    ProgramProjects(ds);
    FramesArePackets(input);
    forall m | m in Forwarded(ds) ensures Reassembled(m) {
      ForwardedComesFrom(ds, m);
      var i :| 0 <= i < |ds| && !ds[i].Blocked? && ds[i].raw == m;
      FrameIsReassembled(frames[i]);
    }
  }

  /** What the server makes of the tunnel's bytes: exactly the forwarded messages if and only if each came in a
      single packet. */
  lemma ServerReadsTunnelIff(t: Codec, policy: Policy, who: Login, input: Bytes)
    ensures var sent := Forwarded(Judgements(t, policy, who, input));
            Received(MessageFramer(), Flatten(sent)) == sent <==> forall m | m in sent :: OnePacket(m)
  {
    hide OnePacket, Received, Reassembled, MessageFramer, Flatten, Judgements;
    SentByTunnel(t, policy, who, input);
    ForwardingKeepsMessagesIff(Forwarded(Judgements(t, policy, who, input)));
  }

  /** An input on which it differs: one message that is no batch, in two packets. The proxy passes it without an
      event, and the server reads a second message b in it, whatever b is. */
  lemma ServerCanReadMore(t: Codec, policy: Policy, who: Login, kind: byte, b: Packet)
    requires kind != SQL_BATCH
    requires WellFormed(b) && b.status % 2 == 1 && |b.payload| <= 65511
    ensures (forall p | p in TwoInOne(kind, b) :: WellFormed(p))
    ensures var ds := Judgements(t, policy, who, Wire(TwoInOne(kind, b)));
            var read := Received(MessageFramer(), Flatten(Forwarded(ds)));
            |ds| == 1 && Events(ds) == [] && Replies(ds) == [] && |read| == 2 && read[1] == Header(b) + b.payload
  {
    hide Frames, Header, ReadMessage, ErrorPacket, ExtractQuery, TwoInOne;
    ReadingsDiffer(kind, b);
    var ps := TwoInOne(kind, b);
    var ds, msg := Judgements(t, policy, who, Wire(ps)), Header(ps[0]) + Payloads(ps);
    assert Messages(Frames(MessageFramer(), Wire(ps))) == [msg];
    assert msg[0] == Header(ps[0])[0] == kind;
    assert ds == [Pass(msg)] && ds[1..] == [];
    assert Forwarded(ds) == [msg];
    FlattenOne(msg);
  }

  // ---------- which batches are judged ----------

  /** The action right before the i-th is the event of an allowed query, and its text is the text of the batch
      that goes upstream. */
  ghost predicate Vouched(t: Codec, trace: seq<Action>, i: nat)
    requires i < |trace| && trace[i].Up?
  {
    && i > 0 && trace[i - 1].Log? && trace[i - 1].event.allowed && trace[i - 1].event.kind == QueryExecuted
    && trace[i - 1].event.query == Some(ExtractQuery(t, trace[i].bytes))
  }

  ghost predicate BatchesVouched(t: Codec, trace: seq<Action>) {
    forall i | 0 <= i < |trace| && trace[i].Up? && IsBatch(trace[i].bytes) :: Vouched(t, trace, i)
  }

  /** The exact line for a whole connection: every SQL batch that goes upstream comes right after the event of an
      allowed query with its text, if and only if neither message sent before the tunnel is a batch. Those two
      are forwarded whatever their kind: the first unjudged, the second judged as a connection. */
  lemma BatchesAreVouchedIff(t: Codec, policy: Policy, ip: string, client: Bytes, server: Bytes)
    ensures BatchesVouched(t, Session(t, policy, ip, client, server))
            <==> forall m | m in OpeningSent(t, policy, ip, client, server) :: !IsBatch(m)
  {
    hide ReadPackets, AfterPrelogin, LoginSent, IsEncrypted, IsBatch, Vouched, BatchesVouched;
    var r := ReadPackets([], client);
    VouchedNothing(t);
    if r.Done? {
      var answer := ReadPackets([], server);
      var rest := if answer.Failed? then []
                  else [Down(answer.msg)] + AfterPrelogin(t, policy, ip, answer.msg, r.rest, answer.rest);
      assert Session(t, policy, ip, client, server) == [Up(r.msg)] + rest;
      VouchedAppend(t, [Up(r.msg)], rest);
      VouchedOne(t, r.msg);
      if answer.Done? {
        var after := AfterPrelogin(t, policy, ip, answer.msg, r.rest, answer.rest);
        AfterPreloginVouchedIff(t, policy, ip, answer.msg, r.rest, answer.rest);
        VouchedAppend(t, [Down(answer.msg)], after);
        VouchedDown(t, answer.msg);
      }
    }
  }

  lemma VouchedNothing(t: Codec)
    ensures BatchesVouched(t, [])
  {
  }

  lemma VouchedOne(t: Codec, m: Bytes)
    ensures BatchesVouched(t, [Up(m)]) <==> !IsBatch(m)
  {
    hide IsBatch;
    assert [Up(m)][0].Up?;
  }

  lemma VouchedDown(t: Codec, m: Bytes)
    ensures BatchesVouched(t, [Down(m)])
  {
  }

  lemma VouchedAppend(t: Codec, a: seq<Action>, b: seq<Action>)
    requires b == [] || !b[0].Up? || BatchesVouched(t, b)
    ensures BatchesVouched(t, a + b) <==> BatchesVouched(t, a) && BatchesVouched(t, b)
  {
    hide IsBatch, ExtractQuery;
    if BatchesVouched(t, a + b) {
      forall i | 0 <= i < |a| && a[i].Up? && IsBatch(a[i].bytes) ensures Vouched(t, a, i) {
        assert (a + b)[i] == a[i] && Vouched(t, a + b, i);
      }
      forall i | 0 <= i < |b| && b[i].Up? && IsBatch(b[i].bytes) ensures Vouched(t, b, i) {
        assert (a + b)[|a| + i] == b[i] && Vouched(t, a + b, |a| + i);
        assert (a + b)[|a| + i - 1] == b[i - 1];
      }
    }
    if BatchesVouched(t, a) && BatchesVouched(t, b) {
      forall i | 0 <= i < |a + b| && (a + b)[i].Up? && IsBatch((a + b)[i].bytes) ensures Vouched(t, a + b, i) {
        if i < |a| {
          assert Vouched(t, a, i);
        } else {
          assert Vouched(t, b, i - |a|);
          assert (a + b)[i - 1] == b[i - |a| - 1];
        }
      }
    }
  }

  lemma AfterPreloginVouchedIff(t: Codec, policy: Policy, ip: string, resp: Bytes, client: Bytes, server: Bytes)
    ensures var after := AfterPrelogin(t, policy, ip, resp, client, server);
            && (after == [] || !after[0].Up?)
            && (BatchesVouched(t, after) <==> forall m | m in LoginSent(t, policy, ip, resp, client) :: !IsBatch(m))
  {
    hide ReadPackets, IsEncrypted, IsBatch, LoginOf, Judged, BatchesVouched, Vouched;
    VouchedNothing(t);
    if EncryptionOn(resp) {
      var nobody := Login(ip, "unknown", "mssql");
      VouchedLog(t, Opening(policy(0, ConnectionRequest(nobody)), nobody));
    } else if ReadPackets([], client).Done? {
      var r := ReadPackets([], client);
      LoginVouchedIff(t, policy, LoginOf(t, ip, r.msg), r.msg, r.rest, server);
    }
  }

  lemma VouchedLog(t: Codec, a: Action)
    requires a.Log?
    ensures BatchesVouched(t, [a])
  {
  }

  lemma LoginVouchedIff(t: Codec, policy: Policy, who: Login, login: Bytes, client: Bytes, server: Bytes)
    ensures BatchesVouched(t, PlainLogin(t, policy, who, login, client, server))
            <==> (policy(0, ConnectionRequest(who)).allowed ==> !IsBatch(login))
  {
    hide ReadPackets, IsBatch, Judged, ErrorPacket, BatchesVouched, Vouched;
    var result := policy(0, ConnectionRequest(who));
    var open := Opening(result, who);
    VouchedNothing(t);
    if !result.allowed {
      var refusal := ErrorPacket(t.encode16(result.reason));
      VouchedLog(t, open);
      VouchedDown(t, refusal);
      VouchedAppend(t, [open], [Down(refusal)]);
    } else {
      var answer := ReadPackets([], server);
      var rest := if answer.Done? then [Down(answer.msg)] + Judged(t, policy, who, client) else [];
      assert PlainLogin(t, policy, who, login, client, server) == [open, Up(login)] + rest;
      VouchedAppend(t, [open, Up(login)], rest);
      OpeningVouchesForNothing(t, open, login);
      if answer.Done? {
        JudgedIsVouched(t, policy, who, client);
        VouchedAppend(t, [Down(answer.msg)], Judged(t, policy, who, client));
        VouchedDown(t, answer.msg);
      }
    }
  }

  lemma OpeningVouchesForNothing(t: Codec, open: Action, login: Bytes)
    requires open.Log? && open.event.query == None
    ensures BatchesVouched(t, [open, Up(login)]) <==> !IsBatch(login)
  {
    hide IsBatch;
    assert [open, Up(login)][1].Up?;
  }

  predicate DecisionVouched(t: Codec, d: Decision) {
    match d
    case Pass(raw) => !IsBatch(raw)
    case Executed(e, raw) => e.allowed && e.kind == QueryExecuted && e.query == Some(ExtractQuery(t, raw))
    case Blocked(_, _) => true
  }

  lemma ActionsVouched(t: Codec, d: Decision)
    requires DecisionVouched(t, d)
    ensures BatchesVouched(t, Actions(d))
  {
    hide IsBatch, ExtractQuery;
  }

  lemma {:induction false} ProgramVouched(t: Codec, ds: seq<Decision>)
    requires forall d | d in ds :: DecisionVouched(t, d)
    ensures BatchesVouched(t, Program(ds))
  {
    hide BatchesVouched, DecisionVouched, Actions;
    VouchedNothing(t);
    if ds != [] {
      ActionsVouched(t, ds[0]);
      ProgramVouched(t, ds[1..]);
      VouchedAppend(t, Actions(ds[0]), Program(ds[1..]));
    }
  }

  lemma JudgedIsVouched(t: Codec, policy: Policy, who: Login, input: Bytes)
    ensures BatchesVouched(t, Judged(t, policy, who, input))
  {
    hide ExtractQuery, ErrorPacket, Frames, IsBatch, BatchesVouched;
    ProgramVouched(t, Judgements(t, policy, who, input));
  }

  /** An input on which it fails: a client that opens with a batch b has it forwarded, and no event of the
      connection carries a query. */
  lemma FirstMessageIsNotJudged(t: Codec, policy: Policy, ip: string, b: Packet, server: Bytes)
    requires WellFormed(b) && b.kind == SQL_BATCH && b.status % 2 == 1
    ensures var batch := Header(b) + b.payload;
            var trace := Session(t, policy, ip, batch, server);
            IsBatch(batch) && trace != [] && trace[0] == Up(batch) && forall e | e in Logs(trace) :: e.query == None
  {
    hide ReadPackets, Header, IsEncrypted, LoginOf;
    var batch := Header(b) + b.payload;
    OnePacketMessage(b, []);
    assert batch + [] == batch;
    NothingToRead();
    var answer := ReadPackets([], server);
    var nobody := Login(ip, "unknown", "mssql");
    var open := Opening(policy(0, ConnectionRequest(nobody)), nobody);
    var rest := if answer.Failed? then [] else if EncryptionOn(answer.msg) then [Down(answer.msg), open]
                else [Down(answer.msg)];
    assert Session(t, policy, ip, batch, server) == [Up(batch)] + rest;
    assert forall a | a in rest && a.Log? :: a == open;
    LogsAreIn([Up(batch)] + rest);
  }

  /** Another: after a plain answer and an allowed connection a batch in the place of LOGIN7 is forwarded with the
      connection's event only. */
  lemma SecondMessageIsNotJudged(t: Codec, policy: Policy, ip: string, p: Packet, b: Packet, resp: Packet)
    requires WellFormed(p) && p.status % 2 == 1 && WellFormed(resp) && resp.status % 2 == 1
    requires WellFormed(b) && b.kind == SQL_BATCH && b.status % 2 == 1
    requires !EncryptionOn(Header(resp) + resp.payload)
    requires policy(0, ConnectionRequest(Login(ip, "unknown", "mssql"))).allowed
    ensures var batch := Header(b) + b.payload;
            var trace := Session(t, policy, ip, Header(p) + p.payload + batch, Header(resp) + resp.payload);
            IsBatch(batch) && Up(batch) in trace && forall e | e in Logs(trace) :: e.query == None
  {
    hide ReadPackets, Header, IsEncrypted;
    var batch, first, answer := Header(b) + b.payload, Header(p) + p.payload, Header(resp) + resp.payload;
    OnePacketMessage(p, batch);
    OnePacketMessage(b, []);
    OnePacketMessage(resp, []);
    NothingToRead();
    assert batch + [] == batch && answer + [] == answer;
    assert batch[0] == Header(b)[0] == SQL_BATCH;
    var nobody := Login(ip, "unknown", "mssql");
    var open := Opening(policy(0, ConnectionRequest(nobody)), nobody);
    var trace := Session(t, policy, ip, first + batch, answer);
    assert trace == [Up(first)] + ([Down(answer)] + ([open] + ([Up(batch)] + [])));
    assert trace[3] == Up(batch);
    LogsAreIn(trace);
  }

  lemma OnePacketMessage(b: Packet, more: Bytes)
    requires WellFormed(b) && b.status % 2 == 1
    ensures var m := Header(b) + b.payload; ReadPackets([], m + more) == Done(m, more) && m[0] == b.kind
  {
    hide Header;
    PacketStep([], b, more);
  }

  lemma NothingToRead()
    ensures ReadPackets([], []).Failed?
  {
  }

  lemma {:induction false} LogsAreIn(trace: seq<Action>)
    ensures forall e | e in Logs(trace) :: Log(e) in trace
  {
    if trace != [] {
      assert trace == [trace[0]] + trace[1..];
      LogsAreIn(trace[1..]);
    }
  }

  // ---------- what the client reads before the tunnel ----------

  /** The server's answers to the first message and to the login, as the proxy passes them on. */
  ghost function Answers(t: Codec, policy: Policy, ip: string, client: Bytes, server: Bytes): seq<Bytes> {
    match ReadPackets([], client)
    case Failed => []
    case Done(_, client1) =>
      match ReadPackets([], server)
      case Failed => []
      case Done(resp, server1) =>
        [resp] + if LoginSent(t, policy, ip, resp, client1) == [] then []
                 else match ReadPackets([], server1)
                      case Failed => []
                      case Done(answer, _) => [answer]
  }

  /** The answers are the first things the client is sent. It reads them as the proxy did, whatever the tunnel
      sends behind them, if and only if each came in a single packet. */
  lemma ClientReadsConnectionIff(t: Codec, policy: Policy, ip: string, client: Bytes, server: Bytes)
    ensures var answers := Answers(t, policy, ip, client, server);
            && answers <= Downs(Session(t, policy, ip, client, server))
            && ((forall more: Bytes ::
                   Received(MessageFramer(), Flatten(answers) + more) == answers + Received(MessageFramer(), more))
                <==> forall m | m in answers :: OnePacket(m))
  {
    hide OnePacket, Received, Reassembled, MessageFramer, Flatten, ReadPackets, Session, Answers;
    var answers := Answers(t, policy, ip, client, server);
    AnswersComeFirst(t, policy, ip, client, server);
    ForwardingKeepsMessagesIff(answers);
    MessagesArePrefixStable();
    if forall m | m in answers :: OnePacket(m) {
      forall m | m in answers ensures StandsAs(MessageFramer(), m, m) {
        OnePacketStands(m);
      }
      forall more: Bytes
        ensures Received(MessageFramer(), Flatten(answers) + more) == answers + Received(MessageFramer(), more)
      {
        ReadsBack(MessageFramer(), answers, more);
      }
    } else {
      ReadsBack(MessageFramer(), [], []);
      assert Flatten(answers) + [] == Flatten(answers) && answers + [] == answers;
      assert Received(MessageFramer(), Flatten(answers) + []) != answers + Received(MessageFramer(), []);
    }
  }

  lemma AnswersComeFirst(t: Codec, policy: Policy, ip: string, client: Bytes, server: Bytes)
    ensures Answers(t, policy, ip, client, server) <= Downs(Session(t, policy, ip, client, server))
    ensures forall m | m in Answers(t, policy, ip, client, server) :: Reassembled(m)
  {
    hide Reassembled, ReadPackets, AfterPrelogin, Downs, IsEncrypted, LoginOf, LoginSent;
    var r := ReadPackets([], client);
    if r.Done? && ReadPackets([], server).Done? {
      var answer := ReadPackets([], server);
      ReadIsReassembled(server);
      var after := AfterPrelogin(t, policy, ip, answer.msg, r.rest, answer.rest);
      assert Session(t, policy, ip, client, server) == [Up(r.msg)] + ([Down(answer.msg)] + after);
      DownsCons(Up(r.msg), [Down(answer.msg)] + after);
      DownsCons(Down(answer.msg), after);
      if LoginSent(t, policy, ip, answer.msg, r.rest) != [] && ReadPackets([], answer.rest).Done? {
        ReadIsReassembled(answer.rest);
        LoginAnswerComesFirst(t, policy, ip, answer.msg, r.rest, answer.rest);
      }
    }
  }

  lemma LoginAnswerComesFirst(t: Codec, policy: Policy, ip: string, resp: Bytes, client: Bytes, server: Bytes)
    requires LoginSent(t, policy, ip, resp, client) != [] && ReadPackets([], server).Done?
    ensures [ReadPackets([], server).msg] <= Downs(AfterPrelogin(t, policy, ip, resp, client, server))
  {
    hide ReadPackets, Downs, IsEncrypted, LoginOf, Judged;
    var login, answer := ReadPackets([], client), ReadPackets([], server);
    var who := LoginOf(t, ip, login.msg);
    var open := Opening(policy(0, ConnectionRequest(who)), who);
    var rest := Judged(t, policy, who, login.rest);
    assert AfterPrelogin(t, policy, ip, resp, client, server)
        == [open] + ([Up(login.msg)] + ([Down(answer.msg)] + rest));
    DownsCons(open, [Up(login.msg)] + ([Down(answer.msg)] + rest));
    DownsCons(Up(login.msg), [Down(answer.msg)] + rest);
    DownsCons(Down(answer.msg), rest);
  }

  /** A denied login is answered with one error packet and never reaches the server. */
  lemma DeniedLoginStops(t: Codec, policy: Policy, who: Login, login: Bytes, client: Bytes, server: Bytes)
    requires !policy(0, ConnectionRequest(who)).allowed
    ensures var trace := PlainLogin(t, policy, who, login, client, server);
            && Ups(trace) == [] && Downs(trace) == [ErrorPacket(t.encode16(policy(0, ConnectionRequest(who)).reason))]
            && |Logs(trace)| == 1 && Logs(trace)[0].kind == ConnectionDenied
  {
    hide ErrorPacket, ReadPackets, Judged, Ups, Downs, Logs;
    var result := policy(0, ConnectionRequest(who));
    PairProjects(Opening(result, who), Down(ErrorPacket(t.encode16(result.reason))));
    SingleProjects(Opening(result, who));
    assert PlainLogin(t, policy, who, login, client, server)
        == [Opening(result, who), Down(ErrorPacket(t.encode16(result.reason)))];
  }

  /** The message goes on exactly when the engine allowed its query; the event says which query it was, what was
      decided and why; a refusal carries the reason to the client. */
  ghost predicate JudgedAs(t: Codec, who: Login, query: string, result: AccessResult, d: Decision) {
    && !d.Pass?
    && (d.Executed? <==> result.allowed)
    && d.event == AuditEvent(if result.allowed then QueryExecuted else QueryBlocked, who.ip, who.user, "mssql",
                             who.database, Some(query), result.allowed, result.reason, result.matchedRule)
    && (d.Blocked? ==> d.reply == ErrorPacket(t.encode16(result.reason)))
  }

  /** On arbitrary client bytes: every byte is part of one message, in order, or of one unfinished tail; each
      message is passed, forwarded after its event, or answered with one error packet. What is forwarded is the
      message as reassembled. */
  lemma SessionConserves(t: Codec, policy: Policy, who: Login, input: Bytes)
    ensures var frames := Frames(MessageFramer(), input);
            var ds := Judgements(t, policy, who, input);
            && Flatten(Wires(frames)) + Tail(MessageFramer(), input) == input
            && MessageFramer()(Tail(MessageFramer(), input)).Stop?
            && |ds| == |frames|
            && (forall i | 0 <= i < |frames| ::
                  && FromPackets(frames[i])
                  && (!ds[i].Blocked? ==> ds[i].raw == frames[i].msg)
                  && |frames[i].msg| >= 8
                  && if frames[i].msg[0] != 0x01 then ds[i].Pass?
                     else JudgedAs(t, who, ExtractQuery(t, frames[i].msg),
                                   policy(i + 1, AccessRequest(who.ip, who.user, DbType.MSSQL, who.database,
                                                               Some(ExtractQuery(t, frames[i].msg)), None)), ds[i]))
            && Ups(Judged(t, policy, who, input)) == Forwarded(ds)
            && Logs(Judged(t, policy, who, input)) == Events(ds)
            && Downs(Judged(t, policy, who, input)) == Replies(ds)
  {
    hide ExtractQuery, ErrorPacket, FromPackets, ReadMessage;
    FramesConserve(MessageFramer(), input);
    MessageFramerProgresses();
    TailStops(MessageFramer(), input);
    FramesArePackets(input);
    forall i | 0 <= i < |Frames(MessageFramer(), input)| ensures |Frames(MessageFramer(), input)[i].msg| >= 8 {
      FrameHasHeader(Frames(MessageFramer(), input)[i]);
    }
    ProgramProjects(Judgements(t, policy, who, input));
  }

  /** Who the session is for: a LOGIN7 names user and database, empty ones and everything else mean the defaults.
      The connection is evaluated for them and its event says so. */
  lemma ConnectionIsLogged(t: Codec, policy: Policy, ip: string, header: Bytes, p: Bytes, user: seq<Unit16>,
                           database: seq<Unit16>, client: Bytes, server: Bytes)
    requires |header| == 8 && |p| >= 90 && PointsTo(p, 40, user) && PointsTo(p, 68, database)
    ensures var u := if header[0] == 0x10 && t.Lossy16(user) != "" then t.Lossy16(user) else "unknown";
            var db := if header[0] == 0x10 && t.Lossy16(database) != "" then t.Lossy16(database) else "mssql";
            var result := policy(0, AccessRequest(ip, u, DbType.MSSQL, db, None, None));
            var trace := PlainLogin(t, policy, LoginOf(t, ip, header + p), header + p, client, server);
            && LoginOf(t, ip, header + p) == Login(ip, u, db)
            && |trace| > 1
            && trace[0] == Log(AuditEvent(if result.allowed then ConnectionAllowed else ConnectionDenied, ip, u, "mssql",
                                          db, None, result.allowed, result.reason, result.matchedRule))
            && trace[1] == if result.allowed then Up(header + p) else Down(ErrorPacket(t.encode16(result.reason)))
  {
    hide ParseLogin7, ReadPackets, ErrorPacket, Judged, PointsTo;
    Login7YieldsItsFields(t, header, p, user, database);
    assert (header + p)[0] == header[0];
  }

  /** After an encrypted answer the connection is evaluated and logged for an unknown user. */
  lemma EncryptedConnectionIsLogged(t: Codec, policy: Policy, ip: string, resp: Bytes, client: Bytes, server: Bytes)
    requires EncryptionOn(resp)
    ensures var result := policy(0, AccessRequest(ip, "unknown", DbType.MSSQL, "mssql", None, None));
            AfterPrelogin(t, policy, ip, resp, client, server)
            == [Log(AuditEvent(if result.allowed then ConnectionAllowed else ConnectionDenied, ip, "unknown", "mssql",
                               "mssql", None, result.allowed, result.reason, result.matchedRule))]
  {
  }

  /** Denial reasons are short enough for one packet. */
  predicate RefusalsFit(t: Codec, ds: seq<Decision>) {
    forall i | 0 <= i < |ds| && ds[i].Blocked? :: |t.encode16(ds[i].event.reason)| <= MAX_MESSAGE
  }

  /** The client reads every error packet of a session as it was built, whatever follows, if and only if every
      denial reason the policy gave has at most 32739 code units. */
  lemma RepliesReadBackIff(t: Codec, policy: Policy, who: Login, input: Bytes)
    ensures var ds := Judgements(t, policy, who, input);
            (forall r | r in Replies(ds) :: ReadsAs(MessageFramer(), Frame(r, r))) <==> RefusalsFit(t, ds)
  {
    hide ErrorPacket, ReadMessage, ExtractQuery, Frames, Replies;
    var ds := Judgements(t, policy, who, input);
    forall i | 0 <= i < |ds| && ds[i].Blocked?
      ensures ds[i].reply in Replies(ds)
      ensures ds[i].reply == ErrorPacket(t.encode16(ds[i].event.reason))
      ensures ReadsAs(MessageFramer(), Frame(ds[i].reply, ds[i].reply))
              <==> |t.encode16(ds[i].event.reason)| <= MAX_MESSAGE
    {
      BlockedIsAnswered(ds, i);
      ErrorPacketIsFrameIff(t.encode16(ds[i].event.reason));
    }
    forall r | r in Replies(ds) ensures exists i :: 0 <= i < |ds| && ds[i].Blocked? && ds[i].reply == r {
      RepliesComeFrom(ds, r);
    }
  }

  lemma ErrorPacketIsFrameIff(m: seq<Unit16>)
    ensures ReadsAs(MessageFramer(), Frame(ErrorPacket(m), ErrorPacket(m))) <==> |m| <= MAX_MESSAGE
  {
    hide ErrorPacket, ReadMessage;
    var wire, f := ErrorPacket(m), MessageFramer();
    forall more: Bytes ensures f(wire + more) == Got(wire, |wire|) <==> |m| <= MAX_MESSAGE {
      ErrorPacketReadsBackIff(m, more);
    }
    assert f(wire + []) == Got(wire, |wire|) <==> |m| <= MAX_MESSAGE;
  }

  lemma RepliesAreWhole(t: Codec, policy: Policy, who: Login, input: Bytes)
    requires RefusalsFit(t, Judgements(t, policy, who, input))
    ensures forall r | r in Replies(Judgements(t, policy, who, input)) :: Interleaving.Whole(MessageFramer(), r)
  {
    hide RefusalsFit, Judgements, ReadMessage;
    RepliesReadBackIff(t, policy, who, input);
    forall r | r in Replies(Judgements(t, policy, who, input)) ensures Interleaving.Whole(MessageFramer(), r) {
      FramesOfOne(MessageFramer(), Frame(r, r), []);
      assert r + [] == r;
    }
  }

  /** Under every schedule of the two tasks, when the server's chunks are whole messages and denial reasons fit a
      packet, the client reads the merged stream message by message: the frames of the finished writes, in the
      order of the writes, and then what is readable of the write under way. Among the finished writes are the
      error packets of the messages blocked so far and the chunks copied so far, each in order. */
  lemma ClientStreamParses(t: Codec, policy: Policy, who: Login, input: Bytes, chunks: seq<Bytes>,
                           schedule: seq<Interleaving.Step>)
    requires RefusalsFit(t, Judgements(t, policy, who, input))
    requires forall c | c in chunks :: Interleaving.Whole(MessageFramer(), c)
    ensures var prog := Judged(t, policy, who, input);
            var s := Interleaving.Run(prog, chunks, Interleaving.INIT, schedule);
            && Interleaving.InBounds(prog, chunks, s)
            && Interleaving.By(Interleaving.Inspecting, s.done) == Downs(prog[..s.pc])
            && Interleaving.By(Interleaving.Copying, s.done) == chunks[..s.chunk]
            && Frames(MessageFramer(), s.client)
               == Interleaving.FramesOfSegments(MessageFramer(), s.done)
                  + Frames(MessageFramer(), Interleaving.InFlight(prog, chunks, s))
            && Tail(MessageFramer(), s.client) == Tail(MessageFramer(), Interleaving.InFlight(prog, chunks, s))
  {
    hide RefusalsFit, Judgements, ReadMessage, Interleaving.Run, Interleaving.Whole, Interleaving.FramesOfSegments;
    hide Interleaving.By, Interleaving.InFlight, Frames, Tail;
    ProgramProjects(Judgements(t, policy, who, input));
    RepliesAreWhole(t, policy, who, input);
    MessagesArePrefixStable();
    Interleaving.MergedStreamParses(MessageFramer(), Judged(t, policy, who, input), chunks, schedule);
  }

  /** A session that refuses something has all its error packets start at message boundaries of the client's
      stream, under every schedule, if and only if every chunk read from the server is made of whole messages. */
  lemma RepliesAlwaysAlignedIff(t: Codec, policy: Policy, who: Login, input: Bytes, chunks: seq<Bytes>)
    requires RefusalsFit(t, Judgements(t, policy, who, input)) && Replies(Judgements(t, policy, who, input)) != []
    ensures Interleaving.AlwaysAligned(MessageFramer(), Judged(t, policy, who, input), chunks)
            <==> forall c | c in chunks :: Interleaving.Whole(MessageFramer(), c)
  {
    hide RefusalsFit, Judgements, ReadMessage, Interleaving.AlwaysAligned, Interleaving.Whole;
    ProgramProjects(Judgements(t, policy, who, input));
    RepliesAreWhole(t, policy, who, input);
    MessagesArePrefixStable();
    Interleaving.AlwaysAlignedIff(MessageFramer(), Judged(t, policy, who, input), chunks);
  }
}

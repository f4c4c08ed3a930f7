/** From the administrators' runs to the bytes a server receives: the guard rule, the engine, the tunnel and the
    two tasks put together. */
module EndToEnd {
  import opened Options
  import opened Bytes
  import opened Texts
  import opened Streams
  import opened Rules
  import opened Engine
  import Admin
  import opened AuditEvents
  import opened Tunnel
  import Interleaving
  import opened TdsPackets
  import Mssql
  import Mongo
  import MongoWire
  import Redis

  /** The rules some run of interleaved handlers leads to, from the defaults on, leaving the guard alone. */
  ghost predicate Administered(rules: RuleMap) {
    exists steps ::
      (forall step | step in steps :: Admin.LeavesGuardAlone(step))
      && rules == Admin.Run(Admin.State(Admin.DEFAULT_RULES, []), steps).rules
  }

  /** What one evaluation may collect: the map may be edited while it is iterated. */
  ghost predicate Collected(list: seq<AccessRule>) {
    exists maps :: (forall m | m in maps :: Administered(m)) && Admin.CollectedDuring(maps, list)
  }

  /** The k-th evaluation of a session is made by the engine, over some list it collected: the rules may have been
      edited since the last one and may be edited meanwhile, the clock may have moved, and the map may be iterated
      in any order. */
  ghost predicate ByEngine(t: Codec, policy: Policy, listAt: nat -> seq<AccessRule>, worldAt: nat -> World) {
    && (forall k: nat :: Collected(listAt(k)))
    && (forall k: nat :: worldAt(k).codec == t)
    && (forall k: nat, req :: policy(k, req) == Decide(StableSort(listAt(k)), req, worldAt(k)))
  }

  lemma EngineDeniesDanger(t: Codec, policy: Policy, listAt: nat -> seq<AccessRule>, worldAt: nat -> World,
                         k: nat, req: AccessRequest)
    requires ByEngine(t, policy, listAt, worldAt)
    requires req.query.Some? && IsDangerous(t, req.query.value)
    ensures !policy(k, req).allowed
  {
    hide IsDangerous, Admin.Run, Admin.CollectedDuring, Admin.Guarded, Keyed, StableSort, Decide;
    var list, w := listAt(k), worldAt(k);
    assert Collected(list) && w.codec == t && policy(k, req) == Decide(StableSort(list), req, w);
    var maps :| (forall m | m in maps :: Administered(m)) && Admin.CollectedDuring(maps, list);
    forall m | m in maps ensures Admin.Guarded(m) {
      var steps :| (forall step | step in steps :: Admin.LeavesGuardAlone(step))
        && m == Admin.Run(Admin.State(Admin.DEFAULT_RULES, []), steps).rules;
      Admin.DangerIsDeniedInEveryRun(steps, [], req, w);
    }
    Admin.GuardedRulesDenyDanger(maps, list, req, w);
  }

  /** The default rules, however often they are evaluated, are one way for a session to be judged. */
  lemma DefaultsAreOneWay(t: Codec, w: World)
    requires w.codec == t
    ensures var list := [GUARD_RULE, OFFHOURS_RULE];
            ByEngine(t, (k: nat, req) => Decide(StableSort(list), req, w), (k: nat) => list, (k: nat) => w)
  {
    hide Decide, StableSort;
    var order := [GUARD, OFFHOURS_RULE.id];
    var list := [GUARD_RULE, OFFHOURS_RULE];
    assert Administered(Admin.DEFAULT_RULES) by {
      assert Admin.Run(Admin.State(Admin.DEFAULT_RULES, []), []).rules == Admin.DEFAULT_RULES;
    }
    assert Collect(Admin.DEFAULT_RULES, order) == list;
    Admin.CollectingOneMap(Admin.DEFAULT_RULES, order);
    assert Collected(list) by {
      assert forall m | m in [Admin.DEFAULT_RULES] :: Administered(m);
    }
  }

  // ---------- MSSQL ----------

  ghost predicate DangerousBatch(t: Codec, packet: Bytes) {
    Mssql.IsBatch(packet) && IsDangerous(t, ExtractQuery(t, packet))
  }

  /** Decision i is to forward m: the evaluation of that very message granted the request, and its event, which
      names the query, is in the log. */
  ghost predicate Granted(policy: Policy, req: AccessRequest, judged: seq<Decision>, i: nat, m: Bytes,
                          log: seq<AuditEvent>)
  {
    && i < |judged| && judged[i].Executed? && judged[i].raw == m
    && policy(i + 1, req).allowed
    && judged[i].event in log && judged[i].event.query == req.query && judged[i].event.allowed
  }

  /** A batch the server may have: granted, in the log under its text, and not dangerous. */
  ghost predicate BatchInOrder(t: Codec, policy: Policy, who: Mssql.Login, judged: seq<Decision>, log: seq<AuditEvent>,
                               m: Bytes)
  {
    Mssql.IsBatch(m) ==>
      && !DangerousBatch(t, m)
      && exists i: nat :: Granted(policy, Mssql.BatchRequest(who, ExtractQuery(t, m)), judged, i, m, log)
  }

  lemma ForwardedBatchWasGranted(t: Codec, policy: Policy, who: Mssql.Login, input: Bytes, i: nat)
    requires i < |Mssql.Judgements(t, policy, who, input)|
    ensures var d := Mssql.Judgements(t, policy, who, input)[i];
            !d.Blocked? && Mssql.IsBatch(d.raw) ==>
              && d.Executed? && d.event.query == Some(ExtractQuery(t, d.raw)) && d.event.allowed
              && policy(i + 1, Mssql.BatchRequest(who, ExtractQuery(t, d.raw))).allowed
  {
    hide ExtractQuery, Frames;
  }

  lemma ForwardedBatchesAreInOrder(t: Codec, policy: Policy, listAt: nat -> seq<AccessRule>, worldAt: nat -> World,
                                   who: Mssql.Login, input: Bytes, n: nat, log: seq<AuditEvent>)
    requires ByEngine(t, policy, listAt, worldAt)
    requires n <= |Mssql.Judgements(t, policy, who, input)|
    requires Events(Mssql.Judgements(t, policy, who, input)[..n]) <= log
    ensures var judged := Mssql.Judgements(t, policy, who, input)[..n];
            forall m | m in Forwarded(judged) :: BatchInOrder(t, policy, who, judged, log, m)
  {
    hide ByEngine, IsDangerous, ExtractQuery, Frames, Events, Forwarded, Mssql.Judgements, Mssql.IsBatch;
    var ds := Mssql.Judgements(t, policy, who, input);
    var judged := ds[..n];
    forall m | m in Forwarded(judged) && Mssql.IsBatch(m) ensures BatchInOrder(t, policy, who, judged, log, m) {
      ForwardedComesFrom(judged, m);
      var i: nat :| i < |judged| && !judged[i].Blocked? && judged[i].raw == m;
      assert judged[i] == ds[i];
      ForwardedBatchWasGranted(t, policy, who, input, i);
      EventIsLogged(judged, i);
      var req := Mssql.BatchRequest(who, ExtractQuery(t, m));
      assert Granted(policy, req, judged, i, m, log);
      if DangerousBatch(t, m) {
        EngineDeniesDanger(t, policy, listAt, worldAt, i + 1, req);
      }
    }
  }

  /** No message of the connection came in several packets, the condition of `Mssql.ServerReadsConnectionIff`, and
      neither of the two before the tunnel is a batch, the condition of `Mssql.BatchesAreVouchedIff`. */
  ghost predicate Orderly(opening: seq<Bytes>, forwarded: seq<Bytes>) {
    && (forall m | m in opening + forwarded :: OnePacket(m))
    && (forall m | m in opening :: !Mssql.IsBatch(m))
  }

  /** Whatever administrators do meanwhile and however the two tasks of the tunnel are scheduled, on an orderly
      connection: the server reads the opening messages and then exactly the forwarded ones among the first n
      messages sent to the tunnel, for some n whose events are all in the log; and every batch it reads at all was
      granted by the engine, is logged under its text, and is not dangerous. */
  lemma DangerousBatchesStayOut(t: Codec, policy: Policy, listAt: nat -> seq<AccessRule>, worldAt: nat -> World,
                                ip: string, client: Bytes, server: Bytes, chunks: seq<Bytes>,
                                schedule: seq<Interleaving.Step>) returns (n: nat)
    requires ByEngine(t, policy, listAt, worldAt)
    requires Mssql.TunnelOf(t, policy, ip, client, server).Some?
    requires var (who, input) := Mssql.TunnelOf(t, policy, ip, client, server).value;
             Orderly(Mssql.OpeningSent(t, policy, ip, client, server),
                     Forwarded(Mssql.Judgements(t, policy, who, input)))
    ensures var (who, input) := Mssql.TunnelOf(t, policy, ip, client, server).value;
            var opening := Mssql.OpeningSent(t, policy, ip, client, server);
            var ds := Mssql.Judgements(t, policy, who, input);
            var s := Interleaving.Run(Mssql.Judged(t, policy, who, input), chunks, Interleaving.INIT, schedule);
            var read := Received(MessageFramer(), Flatten(opening) + s.upstream);
            && n <= |ds| && read == opening + Forwarded(ds[..n])
            && Events(ds[..n]) <= s.log
            && forall m | m in read :: BatchInOrder(t, policy, who, ds[..n], s.log, m)
  {
    hide ByEngine, Interleaving.Run, Mssql.Judgements, Mssql.OpeningSent, Mssql.TunnelOf, MessageFramer, Received;
    hide OnePacket, Reassembled, Forwarded, Events, Flatten, StandsAs, DangerousBatch, Mssql.IsBatch, Granted;
    hide Mssql.Session;
    var (who, input) := Mssql.TunnelOf(t, policy, ip, client, server).value;
    var opening := Mssql.OpeningSent(t, policy, ip, client, server);
    var ds, f := Mssql.Judgements(t, policy, who, input), MessageFramer();
    MessagesArePrefixStable();
    Mssql.SentOnConnection(t, policy, ip, client, server);
    assert Ups(Mssql.Session(t, policy, ip, client, server)) == opening + Forwarded(ds);
    forall m | m in opening + Forwarded(ds) ensures StandsAs(f, m, m) {
      OnePacketStands(m);
    }
    assert forall m | m in opening || m in Forwarded(ds) :: m in opening + Forwarded(ds);
    n := Interleaving.ServerReadsWhatWasJudged(f, ds, chunks, schedule);
    var s := Interleaving.Run(Mssql.Judged(t, policy, who, input), chunks, Interleaving.INIT, schedule);
    ReadsBack(f, opening, s.upstream);
    ForwardedBatchesAreInOrder(t, policy, listAt, worldAt, who, input, n, s.log);
  }

  /** Cutting a dangerous batch into packets does not help it: the message is blocked, whatever follows. */
  lemma FragmentedDangerIsBlocked(t: Codec, policy: Policy, listAt: nat -> seq<AccessRule>, worldAt: nat -> World,
                                  who: Mssql.Login, ps: seq<Packet>, headers: Bytes, text: seq<Unit16>, core: string,
                                  more: Bytes)
    requires ByEngine(t, policy, listAt, worldAt)
    requires IsMessage(ps) && (forall p | p in ps :: WellFormed(p)) && ps[0].kind == SQL_BATCH
    requires 4 < |headers| && U32Le(headers[..4]) == |headers| && text != []
    requires Payloads(ps) == headers + EncodeUnits(text)
    requires IsCore(t.Lossy16(text), core) && IsDangerous(t, core)
    ensures var ds := Mssql.Judgements(t, policy, who, Wire(ps) + more);
            ds != [] && ds[0].Blocked?
  {
    hide ByEngine, IsDangerous, ExtractQuery, EncodeUnits, Header, Payloads, ReadPackets, Frames, IsCore, Trim, TrimNuls;
    FragmentedBatchYieldsItsText(t, ps, headers, text, more);
    FragmentsReassemble(ps, more);
    var s := Wire(ps) + more;
    var msg := ReadMessage(s).msg;
    CoreIsTheOne(t.Lossy16(text), core);
    CoreIsTheOne(t.Lossy16(text), ExtractQuery(t, msg));
    Mssql.NextMessage(s);
    assert Messages(Frames(MessageFramer(), s))[0] == msg;
    assert msg[0] == Header(ps[0])[0];
    EngineDeniesDanger(t, policy, listAt, worldAt, 1, Mssql.BatchRequest(who, core));
  }

  // ---------- MongoDB and Redis ----------

  /** A command the server may have: granted, in the log under its name, and not dangerous. */
  ghost predicate CommandInOrder(t: Codec, policy: Policy, ip: string, judged: seq<Decision>, log: seq<AuditEvent>,
                                 m: Bytes)
    requires |m| >= 16
  {
    var command := Mongo.ServerCommand(t, m);
    && !IsDangerous(t, command)
    && exists i: nat :: Granted(policy, Mongo.CommandRequest(ip, command), judged, i, m, log)
  }

  lemma ForwardedCommandsAreInOrder(t: Codec, policy: Policy, listAt: nat -> seq<AccessRule>, worldAt: nat -> World,
                                    ip: string, input: Bytes, n: nat, log: seq<AuditEvent>, m: Bytes)
    requires ByEngine(t, policy, listAt, worldAt)
    requires n <= |Mongo.Judgements(t, policy, ip, input)|
    requires Events(Mongo.Judgements(t, policy, ip, input)[..n]) <= log
    requires m in Forwarded(Mongo.Judgements(t, policy, ip, input)[..n]) && |m| >= 16 && Mongo.ServerCommand(t, m) != ""
    ensures |m| > 20
    ensures CommandInOrder(t, policy, ip, Mongo.Judgements(t, policy, ip, input)[..n], log, m) <==> m[20] == 0
  {
    hide ByEngine, IsDangerous, Mongo.CommandIn, Mongo.ServerCommand, MongoWire.OpMsgError, Frames, Events, Forwarded;
    var ds := Mongo.Judgements(t, policy, ip, input);
    var judged := ds[..n];
    Mongo.CommandIsJudgedIff(t, policy, ip, 0, m);
    var req := Mongo.CommandRequest(ip, Mongo.ServerCommand(t, m));
    if m[20] == 0 {
      ForwardedComesFrom(judged, m);
      var i: nat :| i < |judged| && !judged[i].Blocked? && judged[i].raw == m;
      assert judged[i] == ds[i];
      EventIsLogged(judged, i);
      assert Granted(policy, req, judged, i, m, log);
      if IsDangerous(t, Mongo.ServerCommand(t, m)) {
        EngineDeniesDanger(t, policy, listAt, worldAt, i + 1, req);
      }
    }
    forall i: nat | Granted(policy, req, judged, i, m, log) ensures m[20] == 0 {
      ExecutedHasBodyFirst(t, policy, ip, input, i, m);
    }
  }

  lemma ExecutedHasBodyFirst(t: Codec, policy: Policy, ip: string, input: Bytes, i: nat, m: Bytes)
    requires i < |Mongo.Judgements(t, policy, ip, input)|
    requires Mongo.Judgements(t, policy, ip, input)[i].Executed? && Mongo.Judgements(t, policy, ip, input)[i].raw == m
    requires |m| >= 16 && Mongo.ServerCommand(t, m) != ""
    ensures |m| > 20 && m[20] == 0
  {
    hide Mongo.CommandIn, Mongo.ServerCommand, MongoWire.OpMsgError, Frames;
    Mongo.CommandIsJudgedIff(t, policy, ip, i, m);
  }

  /** The MongoDB server reads, at every state of every schedule, exactly the forwarded ones among the first n
      messages of the client, for some n whose events are all in the log. A command it finds in one, walking all
      sections, was granted by the engine, is logged under its name, and is not dangerous, if and only if the body
      is the first section. */
  lemma DangerousCommandsStayOut(t: Codec, policy: Policy, listAt: nat -> seq<AccessRule>, worldAt: nat -> World,
                                 ip: string, input: Bytes, chunks: seq<Bytes>, schedule: seq<Interleaving.Step>)
    returns (n: nat)
    requires ByEngine(t, policy, listAt, worldAt)
    ensures n <= |Mongo.Judgements(t, policy, ip, input)|
    ensures var ds := Mongo.Judgements(t, policy, ip, input);
            var s := Interleaving.Run(Mongo.Judged(t, policy, ip, input), chunks, Interleaving.INIT, schedule);
            var read := Received(MongoWire.MongoFramer(), s.upstream);
            && read == Forwarded(ds[..n])
            && Events(ds[..n]) <= s.log
            && forall m | m in read ::
                 && |m| >= 16
                 && (Mongo.ServerCommand(t, m) != "" ==>
                       |m| > 20 && (CommandInOrder(t, policy, ip, ds[..n], s.log, m) <==> m[20] == 0))
  {
    hide ByEngine, Interleaving.Run, Mongo.Judgements, CommandInOrder, MongoWire.MongoFramer, Received;
    hide Forwarded, Events, Flatten, StandsAs, Mongo.ServerCommand;
    var ds := Mongo.Judgements(t, policy, ip, input);
    MongoWire.MongoIsPrefixStable();
    Mongo.ForwardedStands(t, policy, ip, input);
    n := Interleaving.ServerReadsWhatWasJudged(MongoWire.MongoFramer(), ds, chunks, schedule);
    var s := Interleaving.Run(Mongo.Judged(t, policy, ip, input), chunks, Interleaving.INIT, schedule);
    Interleaving.FirstForwarded(ds, n);
    forall m | m in Forwarded(ds[..n]) && Mongo.ServerCommand(t, m) != ""
      ensures |m| > 20 && (CommandInOrder(t, policy, ip, ds[..n], s.log, m) <==> m[20] == 0)
    {
      ForwardedCommandsAreInOrder(t, policy, listAt, worldAt, ip, input, n, s.log, m);
    }
  }

  /** A command in the strict server's hands: its name, upper-cased, is on no list, granted, in the log, and not
      dangerous. */
  ghost predicate NameInOrder(t: Codec, policy: Policy, ip: string, judged: seq<Decision>, log: seq<AuditEvent>, m: Bytes)
  {
    Redis.StrictCommand(m).Got?
    && (var name := t.upper(Redis.NameOf(t, Redis.StrictCommand(m).msg));
        && name !in Redis.DANGEROUS_COMMANDS && !IsDangerous(t, name)
        && exists i: nat :: Granted(policy, Redis.QueryRequest(ip, name), judged, i, m, log))
  }

  lemma ForwardedNamesAreInOrder(t: Codec, policy: Policy, listAt: nat -> seq<AccessRule>, worldAt: nat -> World,
                                 ip: string, input: Bytes, n: nat, log: seq<AuditEvent>, m: Bytes)
    requires ByEngine(t, policy, listAt, worldAt)
    requires n <= |Redis.Judgements(t, policy, ip, input)|
    requires Events(Redis.Judgements(t, policy, ip, input)[..n]) <= log
    requires m in Forwarded(Redis.Judgements(t, policy, ip, input)[..n]) && Redis.IsEncoding(m)
    ensures NameInOrder(t, policy, ip, Redis.Judgements(t, policy, ip, input)[..n], log, m)
  {
    hide ByEngine, IsDangerous, Frames, Events, Forwarded, Redis.StrictCommand, Redis.IsEncoding, Redis.ReadCommand;
    hide Redis.NameOf, Redis.Judgements, StandsAs;
    var ds, frames := Redis.Judgements(t, policy, ip, input), Frames(Redis.CommandFramer(t), input);
    var judged := ds[..n];
    ForwardedComesFrom(judged, m);
    var i: nat :| i < |judged| && !judged[i].Blocked? && judged[i].raw == m;
    assert judged[i] == ds[i];
    Redis.ForwardedWasGranted(t, policy, ip, input, i);
    EventIsLogged(judged, i);
    Redis.FramesStand(t, input);
    Redis.StrictNameIsJudged(t, frames[i].msg, m);
    var name := t.upper(frames[i].msg.name);
    var req := Redis.QueryRequest(ip, name);
    assert Granted(policy, req, judged, i, m, log);
    if IsDangerous(t, name) {
      EngineDeniesDanger(t, policy, listAt, worldAt, i + 1, req);
    }
  }

  /** A Redis server that takes well-formed arrays only reads, at every state of every schedule, a first part of
      the forwarded ones among the first n commands of the client, for some n whose events are all in the log; and
      every command it reads was granted by the engine, is on no list, is logged under its name, and is not
      dangerous. */
  lemma DangerousNamesStayOut(t: Codec, policy: Policy, listAt: nat -> seq<AccessRule>, worldAt: nat -> World,
                              ip: string, input: Bytes, chunks: seq<Bytes>, schedule: seq<Interleaving.Step>)
    returns (n: nat)
    requires ByEngine(t, policy, listAt, worldAt)
    ensures n <= |Redis.Judgements(t, policy, ip, input)|
    ensures var ds := Redis.Judgements(t, policy, ip, input);
            var s := Interleaving.Run(Redis.Judged(t, policy, ip, input), chunks, Interleaving.INIT, schedule);
            var read := Received(Redis.StrictFramer(), s.upstream);
            && read <= Forwarded(ds[..n])
            && Events(ds[..n]) <= s.log
            && forall m | m in read :: NameInOrder(t, policy, ip, ds[..n], s.log, m)
  {
    hide ByEngine, Interleaving.Run, Redis.Judgements, NameInOrder, Redis.StrictFramer, Received, Redis.IsEncoding;
    hide Forwarded, Events, Flatten;
    var ds, f := Redis.Judgements(t, policy, ip, input), Redis.StrictFramer();
    Redis.StrictFramerIsStable();
    Redis.StrictServerReadsIff(t, policy, ip, input);
    Redis.ForwardedIsNotEmpty(t, policy, ip, input);
    n := Interleaving.ServerReadsSomeOfWhatWasJudged(f, ds, chunks, schedule);
    var s := Interleaving.Run(Redis.Judged(t, policy, ip, input), chunks, Interleaving.INIT, schedule);
    forall m | m in Received(f, s.upstream) ensures NameInOrder(t, policy, ip, ds[..n], s.log, m) {
      Redis.StrictReceivesEncodings(s.upstream);
      ForwardedNamesAreInOrder(t, policy, listAt, worldAt, ip, input, n, s.log, m);
    }
  }

  /** The same for a server that reads RESP as the proxy does, inline commands and malformed headers included, once
      the inspecting task has ended. */
  lemma ListedNamesStayOut(t: Codec, policy: Policy, listAt: nat -> seq<AccessRule>, worldAt: nat -> World,
                           ip: string, input: Bytes, chunks: seq<Bytes>, schedule: seq<Interleaving.Step>,
                           command: Redis.Command)
    requires ByEngine(t, policy, listAt, worldAt)
    requires var prog := Redis.Judged(t, policy, ip, input);
             var s := Interleaving.Run(prog, chunks, Interleaving.INIT, schedule);
             s.pc == |prog| && command in Received(Redis.CommandFramer(t), s.upstream)
    ensures var s := Interleaving.Run(Redis.Judged(t, policy, ip, input), chunks, Interleaving.INIT, schedule);
            var name := t.upper(command.name);
            && name !in Redis.DANGEROUS_COMMANDS && !IsDangerous(t, name)
            && exists i: nat :: Granted(policy, Redis.QueryRequest(ip, name), Redis.Judgements(t, policy, ip, input), i,
                                        command.raw, s.log)
  {
    hide ByEngine, IsDangerous, Frames, Interleaving.Run, Redis.ReadCommand, Events, Forwarded, Flatten, Ups, Logs;
    hide Redis.Judgements;
    var prog, ds := Redis.Judged(t, policy, ip, input), Redis.Judgements(t, policy, ip, input);
    var s := Interleaving.Run(prog, chunks, Interleaving.INIT, schedule);
    Interleaving.Reached(prog, chunks, schedule);
    assert prog[..s.pc] == prog;
    assert s.upstream == Flatten(Ups(prog)) + [] == Flatten(Ups(prog));
    Redis.ServerReadsTheUnblocked(t, policy, ip, input);
    ProgramProjects(ds);
    assert prog == Program(ds);
    Redis.JudgedPerFrame(t, policy, ip, input);
    var frames := Frames(Redis.CommandFramer(t), input);
    var kept := Redis.KeptFrames(frames, ds);
    var j :| 0 <= j < |kept| && kept[j].msg == command;
    Redis.KeptComesFrom(frames, ds, kept[j]);
    var i: nat :| i < |ds| && !ds[i].Blocked? && frames[i] == kept[j];
    var name := t.upper(command.name);
    Redis.ForwardedWasGranted(t, policy, ip, input, i);
    EventIsLogged(ds, i);
    if IsDangerous(t, name) {
      EngineDeniesDanger(t, policy, listAt, worldAt, i + 1, Redis.QueryRequest(ip, name));
    }
    assert Granted(policy, Redis.QueryRequest(ip, name), ds, i, command.raw, s.log);
  }
}

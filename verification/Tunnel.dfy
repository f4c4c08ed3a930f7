/** What the inspecting task of a tunnel does, as a list of actions: write an audit event, forward bytes
    upstream, or send an error frame to the client. */
module Tunnel {
  import opened Bytes
  import opened AuditEvents

  datatype Action = Log(event: AuditEvent) | Up(bytes: Bytes) | Down(bytes: Bytes)

  /** The outcome of inspecting one message. */
  datatype Decision =
    | Pass(raw: Bytes)
    | Executed(event: AuditEvent, raw: Bytes)
    | Blocked(event: AuditEvent, reply: Bytes)

  /** Inspection of the k-th message. */
  type Inspector<!M> = (nat, M) -> Decision

  function Actions(d: Decision): (a: seq<Action>)
    ensures 1 <= |a| <= 2
  {
    match d
    case Pass(raw) => [Up(raw)]
    case Executed(event, raw) => [Log(event), Up(raw)]
    case Blocked(event, reply) => [Log(event), Down(reply)]
  }

  function Decisions<M>(inspect: Inspector<M>, k: nat, msgs: seq<M>): (ds: seq<Decision>)
    ensures |ds| == |msgs| && forall i | 0 <= i < |ds| :: ds[i] == inspect(k + i, msgs[i])
  {
    seq(|msgs|, i requires 0 <= i < |msgs| => inspect(k + i, msgs[i]))
  }

  function Program(ds: seq<Decision>): seq<Action> {
    if ds == [] then [] else Actions(ds[0]) + Program(ds[1..])
  }

  lemma {:induction false} ProgramAppend(a: seq<Decision>, b: seq<Decision>)
    ensures Program(a + b) == Program(a) + Program(b)
  {
    if a == [] {
      assert a + b == b;
    } else {
      assert (a + b)[1..] == a[1..] + b;
      ProgramAppend(a[1..], b);
    }
  }

  lemma ProgramSnoc(a: seq<Decision>, d: Decision)
    ensures Program(a + [d]) == Program(a) + Actions(d)
  {
    ProgramAppend(a, [d]);
    assert Program([d]) == Actions(d) + Program([]);
  }

  /** The first k of the messages have been dealt with since the trace was `before`. */
  ghost predicate Served<M>(inspect: Inspector<M>, msgs: seq<M>, k: nat, before: seq<Action>, trace: seq<Action>) {
    k <= |msgs| && trace == before + Program(Decisions(inspect, 0, msgs[..k]))
  }

  lemma ServedNone<M>(inspect: Inspector<M>, msgs: seq<M>, before: seq<Action>)
    ensures Served(inspect, msgs, 0, before, before)
  {
    assert Decisions(inspect, 0, msgs[..0]) == [];
  }

  lemma ServedOneMore<M>(inspect: Inspector<M>, msgs: seq<M>, k: nat, before: seq<Action>, trace: seq<Action>)
    requires k < |msgs| && Served(inspect, msgs, k, before, trace)
    ensures Served(inspect, msgs, k + 1, before, trace + Actions(inspect(k, msgs[k])))
  {
    hide Actions;
    var ds := Decisions(inspect, 0, msgs[..k]);
    assert Decisions(inspect, 0, msgs[..k + 1]) == ds + [inspect(k, msgs[k])];
    ProgramSnoc(ds, inspect(k, msgs[k]));
    Assoc(before, Program(ds), Actions(inspect(k, msgs[k])));
  }

  lemma ServedAll<M>(inspect: Inspector<M>, msgs: seq<M>, before: seq<Action>, trace: seq<Action>)
    requires Served(inspect, msgs, |msgs|, before, trace)
    ensures trace == before + Program(Decisions(inspect, 0, msgs))
  {
    assert msgs[..|msgs|] == msgs;
  }

  // ---------- projections ----------

  function Logs(actions: seq<Action>): seq<AuditEvent> {
    if actions == [] then []
    else (if actions[0].Log? then [actions[0].event] else []) + Logs(actions[1..])
  }

  function Ups(actions: seq<Action>): seq<Bytes> {
    if actions == [] then []
    else (if actions[0].Up? then [actions[0].bytes] else []) + Ups(actions[1..])
  }

  function Downs(actions: seq<Action>): seq<Bytes> {
    if actions == [] then []
    else (if actions[0].Down? then [actions[0].bytes] else []) + Downs(actions[1..])
  }

  lemma {:induction false} LogsAppend(a: seq<Action>, b: seq<Action>)
    ensures Logs(a + b) == Logs(a) + Logs(b)
  {
    if a == [] {
      assert a + b == b;
    } else {
      assert (a + b)[1..] == a[1..] + b;
      LogsAppend(a[1..], b);
      Assoc(if a[0].Log? then [a[0].event] else [], Logs(a[1..]), Logs(b));
    }
  }

  lemma {:induction false} UpsAppend(a: seq<Action>, b: seq<Action>)
    ensures Ups(a + b) == Ups(a) + Ups(b)
  {
    if a == [] {
      assert a + b == b;
    } else {
      assert (a + b)[1..] == a[1..] + b;
      UpsAppend(a[1..], b);
      Assoc(if a[0].Up? then [a[0].bytes] else [], Ups(a[1..]), Ups(b));
    }
  }

  lemma {:induction false} DownsAppend(a: seq<Action>, b: seq<Action>)
    ensures Downs(a + b) == Downs(a) + Downs(b)
  {
    if a == [] {
      assert a + b == b;
    } else {
      assert (a + b)[1..] == a[1..] + b;
      DownsAppend(a[1..], b);
      Assoc(if a[0].Down? then [a[0].bytes] else [], Downs(a[1..]), Downs(b));
    }
  }

  lemma ProjectionsAppend(a: seq<Action>, b: seq<Action>)
    ensures Logs(a + b) == Logs(a) + Logs(b)
    ensures Ups(a + b) == Ups(a) + Ups(b)
    ensures Downs(a + b) == Downs(a) + Downs(b)
  {
    LogsAppend(a, b);
    UpsAppend(a, b);
    DownsAppend(a, b);
  }

  // ---------- what the decisions say about each projection ----------

  function Events(ds: seq<Decision>): seq<AuditEvent> {
    if ds == [] then [] else (if ds[0].Pass? then [] else [ds[0].event]) + Events(ds[1..])
  }

  function Forwarded(ds: seq<Decision>): seq<Bytes> {
    if ds == [] then [] else (if ds[0].Blocked? then [] else [ds[0].raw]) + Forwarded(ds[1..])
  }

  function Replies(ds: seq<Decision>): seq<Bytes> {
    if ds == [] then [] else (if ds[0].Blocked? then [ds[0].reply] else []) + Replies(ds[1..])
  }

  lemma {:induction false} ForwardedComesFrom(ds: seq<Decision>, b: Bytes)
    requires b in Forwarded(ds)
    ensures exists i :: 0 <= i < |ds| && !ds[i].Blocked? && ds[i].raw == b
  {
    if !ds[0].Blocked? && ds[0].raw == b {
    } else {
      ForwardedComesFrom(ds[1..], b);
      var i :| 0 <= i < |ds[1..]| && !ds[1..][i].Blocked? && ds[1..][i].raw == b;
      assert ds[i + 1] == ds[1..][i];
    }
  }

  lemma {:induction false} RepliesComeFrom(ds: seq<Decision>, r: Bytes)
    requires r in Replies(ds)
    ensures exists i :: 0 <= i < |ds| && ds[i].Blocked? && ds[i].reply == r
  {
    if ds[0].Blocked? && ds[0].reply == r {
    } else {
      RepliesComeFrom(ds[1..], r);
      var i :| 0 <= i < |ds[1..]| && ds[1..][i].Blocked? && ds[1..][i].reply == r;
      assert ds[i + 1] == ds[1..][i];
    }
  }

  lemma {:induction false} BlockedIsAnswered(ds: seq<Decision>, i: nat)
    requires i < |ds| && ds[i].Blocked?
    ensures ds[i].reply in Replies(ds)
  {
    if i > 0 {
      BlockedIsAnswered(ds[1..], i - 1);
    }
  }

  lemma {:induction false} EventIsLogged(ds: seq<Decision>, i: nat)
    requires i < |ds| && !ds[i].Pass?
    ensures ds[i].event in Events(ds)
  {
    if i > 0 {
      EventIsLogged(ds[1..], i - 1);
    }
  }

  lemma {:induction false} ForwardedAppend(a: seq<Decision>, b: seq<Decision>)
    ensures Forwarded(a + b) == Forwarded(a) + Forwarded(b)
  {
    if a == [] {
      assert a + b == b;
    } else {
      assert (a + b)[1..] == a[1..] + b;
      ForwardedAppend(a[1..], b);
      Assoc(if a[0].Blocked? then [] else [a[0].raw], Forwarded(a[1..]), Forwarded(b));
    }
  }

  lemma SingleProjects(a: Action)
    ensures Logs([a]) == if a.Log? then [a.event] else []
    ensures Ups([a]) == if a.Up? then [a.bytes] else []
    ensures Downs([a]) == if a.Down? then [a.bytes] else []
  {
    assert [a][1..] == [];
  }

  lemma UpsCons(a: Action, rest: seq<Action>)
    ensures Ups([a] + rest) == (if a.Up? then [a.bytes] else []) + Ups(rest)
  {
    UpsAppend([a], rest);
    SingleProjects(a);
  }

  lemma DownsCons(a: Action, rest: seq<Action>)
    ensures Downs([a] + rest) == (if a.Down? then [a.bytes] else []) + Downs(rest)
  {
    DownsAppend([a], rest);
    SingleProjects(a);
  }

  lemma ForwardedSnoc(ds: seq<Decision>, d: Decision)
    ensures Forwarded(ds + [d]) == Forwarded(ds) + if d.Blocked? then [] else [d.raw]
  {
    ForwardedAppend(ds, [d]);
    assert [d][1..] == [];
  }

  lemma PairProjects(a: Action, b: Action)
    ensures Logs([a, b]) == Logs([a]) + Logs([b])
    ensures Ups([a, b]) == Ups([a]) + Ups([b])
    ensures Downs([a, b]) == Downs([a]) + Downs([b])
    ensures Logs([b]) == if b.Log? then [b.event] else []
    ensures Ups([b]) == if b.Up? then [b.bytes] else []
    ensures Downs([b]) == if b.Down? then [b.bytes] else []
  {
    ProjectionsAppend([a], [b]);
    assert [a] + [b] == [a, b];
    SingleProjects(b);
  }

  lemma ActionsProject(d: Decision)
    ensures Logs(Actions(d)) == Events([d])
    ensures Ups(Actions(d)) == Forwarded([d])
    ensures Downs(Actions(d)) == Replies([d])
  {
    assert [d][1..] == [];
    match d
    case Pass(raw) => SingleProjects(Up(raw));
    case Executed(e, raw) => PairProjects(Log(e), Up(raw));
    case Blocked(e, reply) => PairProjects(Log(e), Down(reply));
  }

  lemma EventsCons(d: Decision, rest: seq<Decision>)
    ensures Events([d] + rest) == (if d.Pass? then [] else [d.event]) + Events(rest)
  {
    assert ([d] + rest)[1..] == rest;
  }

  lemma ForwardedCons(d: Decision, rest: seq<Decision>)
    ensures Forwarded([d] + rest) == (if d.Blocked? then [] else [d.raw]) + Forwarded(rest)
  {
    assert ([d] + rest)[1..] == rest;
  }

  lemma RepliesCons(d: Decision, rest: seq<Decision>)
    ensures Replies([d] + rest) == (if d.Blocked? then [d.reply] else []) + Replies(rest)
  {
    assert ([d] + rest)[1..] == rest;
  }

  lemma DecisionsCons(d: Decision, rest: seq<Decision>)
    ensures Events([d] + rest) == Events([d]) + Events(rest)
    ensures Forwarded([d] + rest) == Forwarded([d]) + Forwarded(rest)
    ensures Replies([d] + rest) == Replies([d]) + Replies(rest)
  {
    assert Events([]) == [] && Forwarded([]) == [] && Replies([]) == [];
    hide Events, Forwarded, Replies;
    assert [d] + [] == [d];
    EventsCons(d, rest);
    EventsCons(d, []);
    ForwardedCons(d, rest);
    ForwardedCons(d, []);
    RepliesCons(d, rest);
    RepliesCons(d, []);
  }

  /** A whole run of the inspecting task: one event per inspected message in order, upstream exactly the
      messages that were not blocked, one error frame per blocked message. */
  lemma {:induction false} ProgramProjects(ds: seq<Decision>)
    ensures Logs(Program(ds)) == Events(ds)
    ensures Ups(Program(ds)) == Forwarded(ds)
    ensures Downs(Program(ds)) == Replies(ds)
  {
    if ds != [] {
      hide Actions, Logs, Ups, Downs, Events, Forwarded, Replies;
      var d, rest := ds[0], ds[1..];
      assert ds == [d] + rest;
      ActionsProject(d);
      ProjectionsAppend(Actions(d), Program(rest));
      DecisionsCons(d, rest);
      ProgramProjects(rest);
    }
  }

  /** Any point of the program lies inside the actions of one message. */
  lemma {:induction false} Locate(ds: seq<Decision>, pc: nat) returns (n: nat, j: nat)
    requires pc <= |Program(ds)|
    ensures n <= |ds|
    ensures n == |ds| ==> j == 0
    ensures n < |ds| ==> j < |Actions(ds[n])|
    ensures Program(ds)[..pc] == Program(ds[..n]) + (if n < |ds| then Actions(ds[n])[..j] else [])
    ensures pc == |Program(ds[..n])| + j
    ensures n < |ds| ==> pc < |Program(ds)| && Program(ds)[pc] == Actions(ds[n])[j]
  {
    hide Actions;
    if ds == [] {
      n, j := 0, 0;
    } else if pc < |Actions(ds[0])| {
      n, j := 0, pc;
    } else {
      var first := Actions(ds[0]);
      var m;
      m, j := Locate(ds[1..], pc - |first|);
      n := m + 1;
      assert ds[..n] == [ds[0]] + ds[1..][..m];
      assert ds[..n][1..] == ds[1..][..m];
    }
  }

  /** The two directions of the wire and the audit log, as one session writes them. */
  class Channels {
    var trace: seq<Action>

    constructor ()
      ensures trace == []
    {
      trace := [];
    }

    method Record(event: AuditEvent)
      modifies this
      ensures trace == old(trace) + [Log(event)]
    {
      trace := trace + [Log(event)];
    }

    method Forward(bytes: Bytes)
      modifies this
      ensures trace == old(trace) + [Up(bytes)]
    {
      trace := trace + [Up(bytes)];
    }

    method Reply(bytes: Bytes)
      modifies this
      ensures trace == old(trace) + [Down(bytes)]
    {
      trace := trace + [Down(bytes)];
    }
  }
}

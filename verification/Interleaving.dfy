/** The two tasks of a tunnel running at once (mongodb.rs, mssql.rs and redis.rs share this shape). One inspects
    the client's messages and writes audit events, upstream bytes and error frames; the other copies whatever
    chunks it reads from upstream to the client. Both write to the client through one mutex-guarded half. Writes
    go out a few bytes at a time. A task that fails or ends takes no further step. */
module Interleaving {
  import opened Options
  import opened Bytes
  import opened Streams
  import opened AuditEvents
  import opened Tunnel

  datatype Task = Inspecting | Copying

  /** One finished write to the client, kept as history: no step reads it. */
  datatype Segment = Segment(task: Task, bytes: Bytes)

  datatype State = State(
    pc: nat,             // next action of the inspecting task
    sent: nat,           // bytes of that action already written
    chunk: nat,          // next chunk of the copying task
    wrote: nat,          // bytes of that chunk already written
    lock: Option<Task>,  // holder of the client's write half
    upstream: Bytes,
    client: Bytes,
    log: seq<AuditEvent>,
    done: seq<Segment>)

  const INIT := State(0, 0, 0, 0, None, [], [], [], [])

  datatype Step =
    | LogEvent | ForwardSome(n: nat) | ForwardDone
    | LockForReply | ReplySome(n: nat) | ReplyDone
    | LockForCopy | CopySome(n: nat) | CopyDone

  predicate Enabled(prog: seq<Action>, chunks: seq<Bytes>, s: State, step: Step) {
    match step
    case LogEvent => s.pc < |prog| && prog[s.pc].Log?
    case ForwardSome(n) => s.pc < |prog| && prog[s.pc].Up? && s.sent + n <= |prog[s.pc].bytes|
    case ForwardDone => s.pc < |prog| && prog[s.pc].Up? && s.sent == |prog[s.pc].bytes|
    case LockForReply => s.pc < |prog| && prog[s.pc].Down? && s.lock == None
    case ReplySome(n) =>
      s.pc < |prog| && prog[s.pc].Down? && s.lock == Some(Inspecting) && s.sent + n <= |prog[s.pc].bytes|
    case ReplyDone =>
      s.pc < |prog| && prog[s.pc].Down? && s.lock == Some(Inspecting) && s.sent == |prog[s.pc].bytes|
    case LockForCopy => s.chunk < |chunks| && s.lock == None
    case CopySome(n) => s.chunk < |chunks| && s.lock == Some(Copying) && s.wrote + n <= |chunks[s.chunk]|
    case CopyDone => s.chunk < |chunks| && s.lock == Some(Copying) && s.wrote == |chunks[s.chunk]|
  }

  function Apply(prog: seq<Action>, chunks: seq<Bytes>, s: State, step: Step): State
    requires Enabled(prog, chunks, s, step)
  {
    match step
    case LogEvent => s.(pc := s.pc + 1, log := s.log + [prog[s.pc].event])
    case ForwardSome(n) =>
      s.(sent := s.sent + n, upstream := s.upstream + prog[s.pc].bytes[s.sent..s.sent + n])
    case ForwardDone => s.(pc := s.pc + 1, sent := 0)
    case LockForReply => s.(lock := Some(Inspecting))
    case ReplySome(n) => s.(sent := s.sent + n, client := s.client + prog[s.pc].bytes[s.sent..s.sent + n])
    case ReplyDone =>
      s.(pc := s.pc + 1, sent := 0, lock := None, done := s.done + [Segment(Inspecting, prog[s.pc].bytes)])
    case LockForCopy => s.(lock := Some(Copying))
    case CopySome(n) => s.(wrote := s.wrote + n, client := s.client + chunks[s.chunk][s.wrote..s.wrote + n])
    case CopyDone =>
      s.(chunk := s.chunk + 1, wrote := 0, lock := None, done := s.done + [Segment(Copying, chunks[s.chunk])])
  }

  /** A schedule names the steps in the order the runtime takes them; steps that cannot run are skipped. */
  function Run(prog: seq<Action>, chunks: seq<Bytes>, s: State, schedule: seq<Step>): State
    decreases |schedule|
  {
    if schedule == [] then s
    else if Enabled(prog, chunks, s, schedule[0]) then
      Run(prog, chunks, Apply(prog, chunks, s, schedule[0]), schedule[1..])
    else Run(prog, chunks, s, schedule[1..])
  }

  // ---------- the invariant ----------

  function All(done: seq<Segment>): Bytes {
    if done == [] then [] else done[0].bytes + All(done[1..])
  }

  function By(task: Task, done: seq<Segment>): seq<Bytes> {
    if done == [] then []
    else (if done[0].task == task then [done[0].bytes] else []) + By(task, done[1..])
  }

  lemma {:induction false} SegmentSnoc(done: seq<Segment>, x: Segment)
    ensures All(done + [x]) == All(done) + x.bytes
    ensures forall task :: By(task, done + [x]) == By(task, done) + (if x.task == task then [x.bytes] else [])
  {
    if done == [] {
      assert done + [x] == [x];
      assert [x][1..] == [];
    } else {
      assert (done + [x])[1..] == done[1..] + [x];
      SegmentSnoc(done[1..], x);
    }
  }

  predicate InBounds(prog: seq<Action>, chunks: seq<Bytes>, s: State) {
    && s.pc <= |prog| && s.chunk <= |chunks|
    && (if s.pc < |prog| && !prog[s.pc].Log? then s.sent <= |prog[s.pc].bytes| else s.sent == 0)
    && (if s.chunk < |chunks| then s.wrote <= |chunks[s.chunk]| else s.wrote == 0)
    && (s.lock == Some(Inspecting) ==> s.pc < |prog| && prog[s.pc].Down?)
    && (s.lock == Some(Copying) ==> s.chunk < |chunks|)
    && (s.lock != Some(Inspecting) && s.pc < |prog| && prog[s.pc].Down? ==> s.sent == 0)
    && (s.lock != Some(Copying) ==> s.wrote == 0)
  }

  /** The part of the current upstream write that is out. */
  function Forwarding(prog: seq<Action>, s: State): Bytes
    requires s.pc < |prog| && prog[s.pc].Up? ==> s.sent <= |prog[s.pc].bytes|
  {
    if s.pc < |prog| && prog[s.pc].Up? then prog[s.pc].bytes[..s.sent] else []
  }

  /** The part of the current client write that is out. */
  function InFlight(prog: seq<Action>, chunks: seq<Bytes>, s: State): Bytes
    requires InBounds(prog, chunks, s)
  {
    match s.lock
    case None => []
    case Some(Inspecting) => prog[s.pc].bytes[..s.sent]
    case Some(Copying) => chunks[s.chunk][..s.wrote]
  }

  predicate Inv(prog: seq<Action>, chunks: seq<Bytes>, s: State) {
    && InBounds(prog, chunks, s)
    && s.log == Logs(prog[..s.pc])
    && s.upstream == Flatten(Ups(prog[..s.pc])) + Forwarding(prog, s)
    && s.client == All(s.done) + InFlight(prog, chunks, s)
    && By(Inspecting, s.done) == Downs(prog[..s.pc])
    && By(Copying, s.done) == chunks[..s.chunk]
  }

  /** Moving past an action adds it to its projection. */
  lemma NextAction(prog: seq<Action>, pc: nat)
    requires pc < |prog|
    ensures Logs(prog[..pc + 1]) == if prog[pc].Log? then Logs(prog[..pc]) + [prog[pc].event] else Logs(prog[..pc])
    ensures Ups(prog[..pc + 1]) == if prog[pc].Up? then Ups(prog[..pc]) + [prog[pc].bytes] else Ups(prog[..pc])
    ensures Downs(prog[..pc + 1]) == if prog[pc].Down? then Downs(prog[..pc]) + [prog[pc].bytes] else Downs(prog[..pc])
  {
    assert prog[..pc + 1] == prog[..pc] + [prog[pc]];
    ProjectionsAppend(prog[..pc], [prog[pc]]);
    SingleProjects(prog[pc]);
  }

  lemma LogKeepsInv(prog: seq<Action>, chunks: seq<Bytes>, s: State)
    requires Inv(prog, chunks, s) && Enabled(prog, chunks, s, LogEvent)
    ensures Inv(prog, chunks, Apply(prog, chunks, s, LogEvent))
  {
    hide Logs, Ups, Downs, Flatten, All, By;
    NextAction(prog, s.pc);
    assert Forwarding(prog, s) == [] && Forwarding(prog, Apply(prog, chunks, s, LogEvent)) == [];
  }

  lemma ForwardSomeKeepsInv(prog: seq<Action>, chunks: seq<Bytes>, s: State, n: nat)
    requires Inv(prog, chunks, s) && Enabled(prog, chunks, s, ForwardSome(n))
    ensures Inv(prog, chunks, Apply(prog, chunks, s, ForwardSome(n)))
  {
    hide Logs, Ups, Downs, Flatten, All, By;
    WriteMore(Flatten(Ups(prog[..s.pc])), prog[s.pc].bytes, s.sent, n);
  }

  lemma ForwardDoneKeepsInv(prog: seq<Action>, chunks: seq<Bytes>, s: State)
    requires Inv(prog, chunks, s) && Enabled(prog, chunks, s, ForwardDone)
    ensures Inv(prog, chunks, Apply(prog, chunks, s, ForwardDone))
  {
    hide Logs, Ups, Downs, Flatten, All, By;
    var b := prog[s.pc].bytes;
    NextAction(prog, s.pc);
    FlattenSnoc(Ups(prog[..s.pc]), b);
    assert b[..s.sent] == b;
    assert Forwarding(prog, Apply(prog, chunks, s, ForwardDone)) == [];
  }

  lemma ReplySomeKeepsInv(prog: seq<Action>, chunks: seq<Bytes>, s: State, n: nat)
    requires Inv(prog, chunks, s) && Enabled(prog, chunks, s, ReplySome(n))
    ensures Inv(prog, chunks, Apply(prog, chunks, s, ReplySome(n)))
  {
    hide Logs, Ups, Downs, Flatten, All, By;
    WriteMore(All(s.done), prog[s.pc].bytes, s.sent, n);
  }

  lemma ReplyDoneKeepsInv(prog: seq<Action>, chunks: seq<Bytes>, s: State)
    requires Inv(prog, chunks, s) && Enabled(prog, chunks, s, ReplyDone)
    ensures Inv(prog, chunks, Apply(prog, chunks, s, ReplyDone))
  {
    hide Logs, Ups, Downs, Flatten, All, By;
    var b := prog[s.pc].bytes;
    NextAction(prog, s.pc);
    SegmentSnoc(s.done, Segment(Inspecting, b));
    assert b[..s.sent] == b;
    assert Forwarding(prog, s) == [] && Forwarding(prog, Apply(prog, chunks, s, ReplyDone)) == [];
  }

  lemma CopySomeKeepsInv(prog: seq<Action>, chunks: seq<Bytes>, s: State, n: nat)
    requires Inv(prog, chunks, s) && Enabled(prog, chunks, s, CopySome(n))
    ensures Inv(prog, chunks, Apply(prog, chunks, s, CopySome(n)))
  {
    hide Logs, Ups, Downs, Flatten, All, By;
    WriteMore(All(s.done), chunks[s.chunk], s.wrote, n);
  }

  lemma CopyDoneKeepsInv(prog: seq<Action>, chunks: seq<Bytes>, s: State)
    requires Inv(prog, chunks, s) && Enabled(prog, chunks, s, CopyDone)
    ensures Inv(prog, chunks, Apply(prog, chunks, s, CopyDone))
  {
    hide Logs, Ups, Downs, Flatten, All, By;
    var c := chunks[s.chunk];
    SegmentSnoc(s.done, Segment(Copying, c));
    assert c[..s.wrote] == c;
    assert chunks[..s.chunk + 1] == chunks[..s.chunk] + [c];
  }

  lemma LockKeepsInv(prog: seq<Action>, chunks: seq<Bytes>, s: State, step: Step)
    requires Inv(prog, chunks, s) && Enabled(prog, chunks, s, step)
    requires step == LockForReply || step == LockForCopy
    ensures Inv(prog, chunks, Apply(prog, chunks, s, step))
  {
    hide Logs, Ups, Downs, Flatten, All, By;
    assert InFlight(prog, chunks, Apply(prog, chunks, s, step)) == [];
  }

  lemma StepKeepsInv(prog: seq<Action>, chunks: seq<Bytes>, s: State, step: Step)
    requires Inv(prog, chunks, s) && Enabled(prog, chunks, s, step)
    ensures Inv(prog, chunks, Apply(prog, chunks, s, step))
  {
    hide Inv, Enabled, Apply;
    match step {
      case LogEvent => LogKeepsInv(prog, chunks, s);
      case ForwardSome(n) => ForwardSomeKeepsInv(prog, chunks, s, n);
      case ForwardDone => ForwardDoneKeepsInv(prog, chunks, s);
      case ReplySome(n) => ReplySomeKeepsInv(prog, chunks, s, n);
      case ReplyDone => ReplyDoneKeepsInv(prog, chunks, s);
      case CopySome(n) => CopySomeKeepsInv(prog, chunks, s, n);
      case CopyDone => CopyDoneKeepsInv(prog, chunks, s);
      case LockForReply | LockForCopy => LockKeepsInv(prog, chunks, s, step);
    }
  }

  lemma {:induction false} RunKeepsInv(prog: seq<Action>, chunks: seq<Bytes>, s: State, schedule: seq<Step>)
    requires Inv(prog, chunks, s)
    ensures Inv(prog, chunks, Run(prog, chunks, s, schedule))
    decreases |schedule|
  {
    if schedule != [] {
      var step := schedule[0];
      if Enabled(prog, chunks, s, step) {
        StepKeepsInv(prog, chunks, s, step);
        RunKeepsInv(prog, chunks, Apply(prog, chunks, s, step), schedule[1..]);
      } else {
        RunKeepsInv(prog, chunks, s, schedule[1..]);
      }
    }
  }

  lemma Reached(prog: seq<Action>, chunks: seq<Bytes>, schedule: seq<Step>)
    ensures Inv(prog, chunks, Run(prog, chunks, INIT, schedule))
  {
    RunKeepsInv(prog, chunks, INIT, schedule);
  }

  // ---------- what the client receives ----------

  /** `out` is a merge of whole error frames, in order, into the copied bytes. */
  ghost predicate IsMerge(out: Bytes, errors: seq<Bytes>, copied: Bytes) {
    exists segments ::
      All(segments) == out && By(Inspecting, segments) == errors && Flatten(By(Copying, segments)) == copied
  }

  /** Under every schedule the client's bytes are a merge of the whole error frames of the messages blocked so
      far, in order, into a prefix of the upstream bytes, followed by at most one write still under way. */
  lemma ClientOutput(prog: seq<Action>, chunks: seq<Bytes>, schedule: seq<Step>)
    ensures var s := Run(prog, chunks, INIT, schedule);
            && InBounds(prog, chunks, s)
            && exists merged :: s.client == merged + InFlight(prog, chunks, s)
                                && IsMerge(merged, Downs(prog[..s.pc]), Flatten(chunks[..s.chunk]))
  {
    Reached(prog, chunks, schedule);
    var s := Run(prog, chunks, INIT, schedule);
    assert IsMerge(All(s.done), Downs(prog[..s.pc]), Flatten(chunks[..s.chunk]));
    assert s.client == All(s.done) + InFlight(prog, chunks, s);
  }

  /** When both tasks have run to their end, nothing is missing from either side. */
  lemma CompleteOutput(prog: seq<Action>, chunks: seq<Bytes>, schedule: seq<Step>)
    ensures var s := Run(prog, chunks, INIT, schedule);
            s.pc == |prog| && s.chunk == |chunks|
            ==> IsMerge(s.client, Downs(prog), Flatten(chunks))
                && s.upstream == Flatten(Ups(prog)) && s.log == Logs(prog)
  {
    Reached(prog, chunks, schedule);
    var s := Run(prog, chunks, INIT, schedule);
    if s.pc == |prog| && s.chunk == |chunks| {
      assert prog[..s.pc] == prog && chunks[..s.chunk] == chunks;
      assert All(s.done) == s.client;
    }
  }

  // ---------- frame by frame ----------

  /** The bytes fall into whole frames. */
  predicate Whole<M>(f: Framer<M>, b: Bytes) {
    Tail(f, b) == []
  }

  function FramesOfSegments<M>(f: Framer<M>, done: seq<Segment>): seq<Frame<M>> {
    if done == [] then [] else Frames(f, done[0].bytes) + FramesOfSegments(f, done[1..])
  }

  lemma {:induction false} SegmentsAreWhole<M>(f: Framer<M>, done: seq<Segment>)
    requires forall b | b in By(Inspecting, done) :: Whole(f, b)
    requires forall b | b in By(Copying, done) :: Whole(f, b)
    ensures forall x | x in done :: Whole(f, x.bytes)
  {
    if done != [] {
      assert done == [done[0]] + done[1..];
      assert done[0].bytes in By(done[0].task, done);
      SegmentsAreWhole(f, done[1..]);
    }
  }

  lemma {:induction false} SegmentsParse<M>(f: Framer<M>, done: seq<Segment>)
    requires PrefixStable(f)
    requires forall x | x in done :: Whole(f, x.bytes)
    ensures Frames(f, All(done)) == FramesOfSegments(f, done) && Whole(f, All(done))
  {
    if done != [] {
      assert done == [done[0]] + done[1..];
      SegmentsParse(f, done[1..]);
      FramesOfParts(f, done[0].bytes, All(done[1..]));
    }
  }

  /** When the copied chunks and the error replies are whole frames, the client reads the merged stream frame by
      frame at every state of every schedule: every finished write contributes its own frames, in the order of
      the writes, and then come those of the write under way. */
  lemma MergedStreamParses<M>(f: Framer<M>, prog: seq<Action>, chunks: seq<Bytes>, schedule: seq<Step>)
    requires PrefixStable(f)
    requires forall c | c in chunks :: Whole(f, c)
    requires forall r | r in Downs(prog) :: Whole(f, r)
    ensures var s := Run(prog, chunks, INIT, schedule);
            && InBounds(prog, chunks, s)
            && By(Inspecting, s.done) == Downs(prog[..s.pc]) && By(Copying, s.done) == chunks[..s.chunk]
            && Frames(f, s.client) == FramesOfSegments(f, s.done) + Frames(f, InFlight(prog, chunks, s))
            && Tail(f, s.client) == Tail(f, InFlight(prog, chunks, s))
  {
    hide Run, Downs, By, Frames, Tail;
    Reached(prog, chunks, schedule);
    var s := Run(prog, chunks, INIT, schedule);
    DownsAppend(prog[..s.pc], prog[s.pc..]);
    assert prog[..s.pc] + prog[s.pc..] == prog;
    SegmentsAreWhole(f, s.done);
    SegmentsParse(f, s.done);
    FramesOfParts(f, All(s.done), InFlight(prog, chunks, s));
  }

  /** Every finished error frame begins where the client expects a new message. */
  ghost predicate Aligned<M>(f: Framer<M>, done: seq<Segment>) {
    forall j | 0 <= j < |done| && done[j].task == Inspecting :: Whole(f, All(done[..j]))
  }

  ghost predicate AlwaysAligned<M>(f: Framer<M>, prog: seq<Action>, chunks: seq<Bytes>) {
    forall schedule :: Aligned(f, Run(prog, chunks, INIT, schedule).done)
  }

  /** The exact line: with an error frame to send, every error frame begins at a message boundary under every
      schedule if and only if every chunk the copying task reads is made of whole frames. */
  lemma AlwaysAlignedIff<M>(f: Framer<M>, prog: seq<Action>, chunks: seq<Bytes>)
    requires PrefixStable(f) && Downs(prog) != []
    requires forall r | r in Downs(prog) :: Whole(f, r)
    ensures AlwaysAligned(f, prog, chunks) <==> forall c | c in chunks :: Whole(f, c)
  {
    hide Run, Aligned, Downs, Whole;
    if forall c | c in chunks :: Whole(f, c) {
      forall schedule ensures Aligned(f, Run(prog, chunks, INIT, schedule).done) {
        WholeChunksAlign(f, prog, chunks, schedule);
      }
    } else {
      var c :| c in chunks && !Whole(f, c);
      var k: nat :| k < |chunks| && chunks[k] == c;
      var before := ReplyAfter(prog, chunks, k);
      var after := ReplyAfter(prog, chunks, k + 1);
      if AlwaysAligned(f, prog, chunks) {
        AlignedAfter(f, prog, chunks, k, before);
        AlignedAfter(f, prog, chunks, k + 1, after);
        ChunkBetweenIsWhole(f, chunks, k);
      }
    }
  }

  lemma WholeChunksAlign<M>(f: Framer<M>, prog: seq<Action>, chunks: seq<Bytes>, schedule: seq<Step>)
    requires PrefixStable(f)
    requires forall c | c in chunks :: Whole(f, c)
    requires forall r | r in Downs(prog) :: Whole(f, r)
    ensures Aligned(f, Run(prog, chunks, INIT, schedule).done)
  {
    hide Run, Downs, By, Whole;
    Reached(prog, chunks, schedule);
    var s := Run(prog, chunks, INIT, schedule);
    DownsAppend(prog[..s.pc], prog[s.pc..]);
    assert prog[..s.pc] + prog[s.pc..] == prog;
    SegmentsAreWhole(f, s.done);
    forall j | 0 <= j < |s.done| && s.done[j].task == Inspecting ensures Whole(f, All(s.done[..j])) {
      SegmentsParse(f, s.done[..j]);
    }
  }

  function Copies(chunks: seq<Bytes>): (done: seq<Segment>)
    ensures |done| == |chunks|
  {
    seq(|chunks|, i requires 0 <= i < |chunks| => Segment(Copying, chunks[i]))
  }

  /** The first k chunks were copied before anything else, and an error frame came next. */
  predicate ReplyComesAfter(done: seq<Segment>, chunks: seq<Bytes>, k: nat) {
    k <= |chunks| && k < |done| && done[..k] == Copies(chunks[..k]) && done[k].task == Inspecting
  }

  lemma AlignedAfter<M>(f: Framer<M>, prog: seq<Action>, chunks: seq<Bytes>, k: nat, schedule: seq<Step>)
    requires ReplyComesAfter(Run(prog, chunks, INIT, schedule).done, chunks, k)
    requires Aligned(f, Run(prog, chunks, INIT, schedule).done)
    ensures Whole(f, Flatten(chunks[..k]))
  {
    hide Run, Whole;
    AllCopies(chunks[..k]);
  }

  lemma {:induction false} AllCopies(chunks: seq<Bytes>)
    ensures All(Copies(chunks)) == Flatten(chunks)
  {
    if chunks != [] {
      assert Copies(chunks)[1..] == Copies(chunks[1..]);
      AllCopies(chunks[1..]);
    }
  }

  lemma ChunkBetweenIsWhole<M>(f: Framer<M>, chunks: seq<Bytes>, k: nat)
    requires PrefixStable(f) && k < |chunks|
    requires Whole(f, Flatten(chunks[..k])) && Whole(f, Flatten(chunks[..k + 1]))
    ensures Whole(f, chunks[k])
  {
    hide Flatten;
    assert chunks[..k + 1] == chunks[..k] + [chunks[k]];
    FlattenSnoc(chunks[..k], chunks[k]);
    FramesOfParts(f, Flatten(chunks[..k]), chunks[k]);
  }

  /** The runtime may let the copying task take k chunks first and the inspecting task run to its end then. */
  lemma ReplyAfter(prog: seq<Action>, chunks: seq<Bytes>, k: nat) returns (schedule: seq<Step>)
    requires k <= |chunks| && Downs(prog) != []
    ensures ReplyComesAfter(Run(prog, chunks, INIT, schedule).done, chunks, k)
  {
    hide Run, Downs;
    var first := CopyFirst(prog, chunks, k);
    var s := Run(prog, chunks, INIT, first);
    var rest := RunToEnd(prog, chunks, s);
    RunAppend(prog, chunks, INIT, first, rest);
    schedule := first + rest;
    assert prog[0..] == prog;
  }

  lemma {:induction false} CopyFirst(prog: seq<Action>, chunks: seq<Bytes>, k: nat) returns (schedule: seq<Step>)
    requires k <= |chunks|
    ensures var s := Run(prog, chunks, INIT, schedule);
            s.done == Copies(chunks[..k]) && s.lock == None && s.pc == 0 && s.sent == 0 && s.chunk == k && s.wrote == 0
  {
    if k == 0 {
      schedule := [];
    } else {
      var before := CopyFirst(prog, chunks, k - 1);
      var s := Run(prog, chunks, INIT, before);
      var steps := [LockForCopy, CopySome(|chunks[k - 1]|), CopyDone];
      RunThree(prog, chunks, s, LockForCopy, CopySome(|chunks[k - 1]|), CopyDone);
      RunAppend(prog, chunks, INIT, before, steps);
      assert Copies(chunks[..k]) == Copies(chunks[..k - 1]) + [Segment(Copying, chunks[k - 1])];
      schedule := before + steps;
    }
  }

  function Answers(replies: seq<Bytes>): (done: seq<Segment>)
    ensures |done| == |replies|
  {
    seq(|replies|, i requires 0 <= i < |replies| => Segment(Inspecting, replies[i]))
  }

  /** The steps that take the inspecting task through one action without interruption. */
  function StepsOf(a: Action): seq<Step> {
    match a
    case Log(_) => [LogEvent]
    case Up(b) => [ForwardSome(|b|), ForwardDone]
    case Down(b) => [LockForReply, ReplySome(|b|), ReplyDone]
  }

  lemma {:induction false} RunToEnd(prog: seq<Action>, chunks: seq<Bytes>, s: State) returns (schedule: seq<Step>)
    requires s.pc <= |prog| && s.sent == 0 && s.lock == None
    ensures Run(prog, chunks, s, schedule).done == s.done + Answers(Downs(prog[s.pc..]))
    decreases |prog| - s.pc
  {
    if s.pc == |prog| {
      schedule := [];
      assert Answers(Downs(prog[s.pc..])) == [];
    } else {
      hide Run, Downs, StepsOf, Answers;
      var a := prog[s.pc];
      ActionRuns(prog, chunks, s);
      var s' := Run(prog, chunks, s, StepsOf(a));
      var rest := RunToEnd(prog, chunks, s');
      RunAppend(prog, chunks, s, StepsOf(a), rest);
      AnswersCons(prog, s.pc);
      Assoc(s.done, if a.Down? then [Segment(Inspecting, a.bytes)] else [], Answers(Downs(prog[s.pc + 1..])));
      schedule := StepsOf(a) + rest;
    }
  }

  lemma AnswersCons(prog: seq<Action>, pc: nat)
    requires pc < |prog|
    ensures Answers(Downs(prog[pc..]))
            == (if prog[pc].Down? then [Segment(Inspecting, prog[pc].bytes)] else []) + Answers(Downs(prog[pc + 1..]))
  {
    hide Downs;
    assert prog[pc..] == [prog[pc]] + prog[pc + 1..];
    DownsCons(prog[pc], prog[pc + 1..]);
  }

  lemma ActionRuns(prog: seq<Action>, chunks: seq<Bytes>, s: State)
    requires s.pc < |prog| && s.sent == 0 && s.lock == None
    ensures var s' := Run(prog, chunks, s, StepsOf(prog[s.pc]));
            && s'.pc == s.pc + 1 && s'.sent == 0 && s'.lock == None
            && s'.done == s.done + if prog[s.pc].Down? then [Segment(Inspecting, prog[s.pc].bytes)] else []
  {
    hide Run;
    match prog[s.pc] {
      case Log(_) => RunOne(prog, chunks, s, LogEvent);
      case Up(b) => RunTwo(prog, chunks, s, ForwardSome(|b|), ForwardDone);
      case Down(b) => RunThree(prog, chunks, s, LockForReply, ReplySome(|b|), ReplyDone);
    }
  }

  function Take(prog: seq<Action>, chunks: seq<Bytes>, s: State, step: Step): State {
    if Enabled(prog, chunks, s, step) then Apply(prog, chunks, s, step) else s
  }

  lemma RunOne(prog: seq<Action>, chunks: seq<Bytes>, s: State, a: Step)
    ensures Run(prog, chunks, s, [a]) == Take(prog, chunks, s, a)
  {
    hide Enabled, Apply;
    assert [a][1..] == [];
  }

  lemma RunTwo(prog: seq<Action>, chunks: seq<Bytes>, s: State, a: Step, b: Step)
    ensures Run(prog, chunks, s, [a, b]) == Take(prog, chunks, Take(prog, chunks, s, a), b)
  {
    hide Enabled, Apply;
    assert [a, b][1..] == [b];
    RunOne(prog, chunks, Take(prog, chunks, s, a), b);
  }

  lemma RunThree(prog: seq<Action>, chunks: seq<Bytes>, s: State, a: Step, b: Step, c: Step)
    ensures Run(prog, chunks, s, [a, b, c]) == Take(prog, chunks, Take(prog, chunks, Take(prog, chunks, s, a), b), c)
  {
    hide Enabled, Apply;
    assert [a, b, c][1..] == [b, c];
    RunTwo(prog, chunks, Take(prog, chunks, s, a), b, c);
  }

  lemma {:induction false} RunAppend(prog: seq<Action>, chunks: seq<Bytes>, s: State, a: seq<Step>, b: seq<Step>)
    ensures Run(prog, chunks, s, a + b) == Run(prog, chunks, Run(prog, chunks, s, a), b)
    decreases |a|
  {
    hide Enabled, Apply;
    if a == [] {
      assert a + b == b;
    } else {
      assert (a + b)[1..] == a[1..] + b;
      RunAppend(prog, chunks, Take(prog, chunks, s, a[0]), a[1..], b);
    }
  }

  // ---------- audit before forward ----------

  /** The inspecting task has finished n messages and is on the next one: upstream holds exactly the messages
      among them that were not blocked and perhaps a piece of the next, which then is not blocked either and has
      its event in the log. The log is never more than one event ahead. */
  predicate AtMessage(ds: seq<Decision>, s: State, n: nat, piece: Bytes) {
    && n <= |ds|
    && s.upstream == Flatten(Forwarded(ds[..n])) + piece
    && (s.log == Events(ds[..n]) || (n < |ds| && s.log == Events(ds[..n + 1])))
    && (piece != [] ==> n < |ds| && !ds[n].Blocked? && piece <= ds[n].raw && s.log == Events(ds[..n + 1]))
  }

  ghost predicate AuditLeads(ds: seq<Decision>, s: State) {
    exists n: nat, piece: Bytes :: AtMessage(ds, s, n, piece)
  }

  lemma {:induction false} DecisionsSnoc(ds: seq<Decision>, d: Decision)
    ensures Events(ds + [d]) == Events(ds) + Events([d])
  {
    if ds == [] {
      assert ds + [d] == [d];
    } else {
      assert (ds + [d])[1..] == ds[1..] + [d];
      DecisionsSnoc(ds[1..], d);
    }
  }

  /** At every state of every schedule an event is written before the first byte of its message goes upstream,
      at most one event is ahead, and blocked messages contribute no upstream byte. */
  lemma AuditBeforeForward(ds: seq<Decision>, chunks: seq<Bytes>, schedule: seq<Step>)
    ensures AuditLeads(ds, Run(Program(ds), chunks, INIT, schedule))
  {
    hide Logs, Ups, Downs, Flatten, Run, Actions;
    var prog := Program(ds);
    Reached(prog, chunks, schedule);
    var s := Run(prog, chunks, INIT, schedule);
    var n, j := Locate(ds, s.pc);
    ProgramProjects(ds[..n]);
    if n < |ds| {
      var begun := Actions(ds[n])[..j];
      ProjectionsAppend(Program(ds[..n]), begun);
      assert ds[..n + 1] == ds[..n] + [ds[n]];
      DecisionsSnoc(ds[..n], ds[n]);
      BegunProjects(ds[n], j);
      assert Ups(prog[..s.pc]) == Forwarded(ds[..n]) + [] == Forwarded(ds[..n]);
      assert j == 0 ==> s.log == Events(ds[..n]) + [] == Events(ds[..n]);
    } else {
      assert ds[..n] == ds && prog[..s.pc] == prog;
    }
    assert AtMessage(ds, s, n, Forwarding(prog, s));
  }

  /** When every forwarded message is a frame by itself, the server reads, at every state of every schedule,
      exactly the forwarded messages of some first n judged messages, and the log holds the events of all n. A
      message of which only a part has arrived is not read. */
  lemma ServerReadsWhatWasJudged(f: Framer<Bytes>, ds: seq<Decision>, chunks: seq<Bytes>, schedule: seq<Step>)
    returns (n: nat)
    requires PrefixStable(f) && forall m | m in Forwarded(ds) :: StandsAs(f, m, m)
    ensures n <= |ds|
    ensures var s := Run(Program(ds), chunks, INIT, schedule);
            Received(f, s.upstream) == Forwarded(ds[..n]) && Events(ds[..n]) <= s.log
  {
    hide Run, Frames, Forwarded, Events, Flatten, Received, StandsAs, PrefixStable;
    AuditBeforeForward(ds, chunks, schedule);
    var s := Run(Program(ds), chunks, INIT, schedule);
    var piece: Bytes;
    n, piece :| AtMessage(ds, s, n, piece);
    FirstForwarded(ds, n);
    if piece != [] && piece == ds[n].raw {
      n := n + 1;
      FirstForwarded(ds, n);
      FlattenSnoc(Forwarded(ds[..n - 1]), piece);
      ReadsBack(f, Forwarded(ds[..n]), []);
      assert s.upstream + [] == s.upstream;
    } else {
      ReadsBack(f, Forwarded(ds[..n]), piece);
      if piece != [] {
        FirstForwarded(ds, n + 1);
        PartIsNotRead(f, ds[n].raw, piece);
      }
      if s.log != Events(ds[..n]) {
        assert ds[..n + 1] == ds[..n] + [ds[n]];
        DecisionsSnoc(ds[..n], ds[n]);
      }
    }
  }

  /** A server that may stop at a message it does not accept: when of all that is forwarded it reads a first part,
      then at every state of every schedule it has read a first part of what some first n judged messages
      forward, and the log holds the events of all n. */
  lemma ServerReadsSomeOfWhatWasJudged(f: Framer<Bytes>, ds: seq<Decision>, chunks: seq<Bytes>, schedule: seq<Step>)
    returns (n: nat)
    requires PrefixStable(f) && Verbatim(f)
    requires Received(f, Flatten(Forwarded(ds))) <= Forwarded(ds) && forall m | m in Forwarded(ds) :: m != []
    ensures n <= |ds|
    ensures var s := Run(Program(ds), chunks, INIT, schedule);
            Received(f, s.upstream) <= Forwarded(ds[..n]) && Events(ds[..n]) <= s.log
  {
    hide Run, Forwarded, Events, Flatten, Received, Verbatim, PrefixStable;
    AuditBeforeForward(ds, chunks, schedule);
    var s := Run(Program(ds), chunks, INIT, schedule);
    var piece: Bytes;
    n, piece :| AtMessage(ds, s, n, piece);
    var a, b := Forwarded(ds[..n]), Forwarded(ds[n..]);
    ForwardedAppend(ds[..n], ds[n..]);
    assert ds == ds[..n] + ds[n..];
    var rest := UpstreamIsAPart(ds, s, n, piece);
    ReceivedGrows(f, s.upstream, rest);
    VerbatimConserves(f, s.upstream);
    var read := Received(f, s.upstream);
    if piece != [] && piece == ds[n].raw {
      NextIsForwarded(ds, n);
      FlattenSnoc(a, piece);
      n := n + 1;
      ReadIsComplete(read, Forwarded(ds[..n]), Forwarded(ds[n..]), Tail(f, s.upstream), []);
    } else {
      if piece != [] {
        NextIsForwarded(ds, n);
        assert b[0] == ds[n].raw;
      }
      ReadIsComplete(read, a, b, Tail(f, s.upstream), piece);
      if s.log != Events(ds[..n]) {
        assert ds[..n + 1] == ds[..n] + [ds[n]];
        DecisionsSnoc(ds[..n], ds[n]);
      }
    }
  }

  lemma UpstreamIsAPart(ds: seq<Decision>, s: State, n: nat, piece: Bytes) returns (rest: Bytes)
    requires AtMessage(ds, s, n, piece)
    ensures s.upstream + rest == Flatten(Forwarded(ds))
  {
    hide Forwarded, Events, Flatten;
    var a, b := Forwarded(ds[..n]), Forwarded(ds[n..]);
    ForwardedAppend(ds[..n], ds[n..]);
    assert ds == ds[..n] + ds[n..];
    FlattenAppend(a, b);
    if piece == [] {
      rest := Flatten(b);
    } else {
      NextIsForwarded(ds, n);
      var later := Forwarded(ds[n + 1..]);
      FlattenAppend([ds[n].raw], later);
      FlattenOne(ds[n].raw);
      rest := ds[n].raw[|piece|..] + Flatten(later);
      assert piece + rest == Flatten(b) by {
        assert ds[n].raw == piece + ds[n].raw[|piece|..];
      }
    }
    Assoc(Flatten(a), piece, rest);
  }

  lemma NextIsForwarded(ds: seq<Decision>, n: nat)
    requires n < |ds| && !ds[n].Blocked?
    ensures Forwarded(ds[n..]) == [ds[n].raw] + Forwarded(ds[n + 1..])
    ensures Forwarded(ds[..n + 1]) == Forwarded(ds[..n]) + [ds[n].raw]
    ensures Forwarded(ds) == Forwarded(ds[..n + 1]) + Forwarded(ds[n + 1..])
  {
    assert ds[n..][1..] == ds[n + 1..];
    hide Forwarded;
    assert ds[..n + 1] == ds[..n] + [ds[n]];
    ForwardedSnoc(ds[..n], ds[n]);
    ForwardedAppend(ds[..n + 1], ds[n + 1..]);
    assert ds == ds[..n + 1] + ds[n + 1..];
  }

  /** Messages read out of `a` and a piece shorter than the next message lie in `a`. */
  lemma ReadIsComplete(read: seq<Bytes>, a: seq<Bytes>, b: seq<Bytes>, tail: Bytes, piece: Bytes)
    requires read <= a + b && Flatten(read) + tail == Flatten(a) + piece
    requires forall m | m in a + b :: m != []
    requires piece != [] ==> b != [] && |piece| < |b[0]|
    ensures read <= a
  {
    hide Flatten;
    if |read| > |a| {
      assert (a + b)[|a|] == b[0] && (a + b)[|a|] in a + b;
      OneMoreIsLonger(read, a, b);
    }
  }

  lemma OneMoreIsLonger(read: seq<Bytes>, a: seq<Bytes>, b: seq<Bytes>)
    requires read <= a + b && |read| > |a|
    ensures |Flatten(read)| >= |Flatten(a)| + |b[0]|
  {
    hide Flatten;
    var first, later := read[..|a| + 1], read[|a| + 1..];
    assert read == first + later;
    FlattenAppend(first, later);
    assert first == (a + b)[..|a| + 1] == a + [b[0]];
    FlattenSnoc(a, b[0]);
  }

  /** The n-th decision forwards its own message after those of the ones before. */
  lemma FirstForwarded(ds: seq<Decision>, n: nat)
    requires n <= |ds|
    ensures forall m | m in Forwarded(ds[..n]) :: m in Forwarded(ds)
    ensures n > 0 ==> Forwarded(ds[..n])
                      == Forwarded(ds[..n - 1]) + if ds[n - 1].Blocked? then [] else [ds[n - 1].raw]
  {
    hide Forwarded;
    ForwardedGrows(ds, n);
    if n > 0 {
      ForwardedSnoc(ds[..n - 1], ds[n - 1]);
      assert ds[..n] == ds[..n - 1] + [ds[n - 1]];
    }
  }

  lemma ForwardedGrows(ds: seq<Decision>, n: nat)
    requires n <= |ds|
    ensures forall m | m in Forwarded(ds[..n]) :: m in Forwarded(ds)
  {
    hide Forwarded;
    ForwardedAppend(ds[..n], ds[n..]);
    assert ds == ds[..n] + ds[n..];
  }

  /** Part way through one message, nothing is forwarded yet and its event is logged once the first action is
      over. */
  lemma BegunProjects(d: Decision, j: nat)
    requires j < |Actions(d)|
    ensures Ups(Actions(d)[..j]) == [] && Downs(Actions(d)[..j]) == []
    ensures Logs(Actions(d)[..j]) == if j == 0 then [] else Events([d])
    ensures Actions(d)[j].Up? ==> !d.Blocked? && Actions(d)[j].bytes == d.raw && Logs(Actions(d)[..j]) == Events([d])
  {
    assert Actions(d)[..0] == [];
    assert [d][1..] == [];
    if j == 1 {
      assert Actions(d)[..1] == [Actions(d)[0]];
      SingleProjects(Actions(d)[0]);
    }
  }
}

/** The read side of a connection, and how a byte stream falls into frames. */
module Streams {
  import opened Options
  import opened Bytes
  import opened Texts

  const LF := 10

  /** Up to and including the first line feed, or all of s when there is none. */
  function FirstLine(s: Bytes): (line: Bytes)
    ensures line <= s
    ensures s != [] ==> line != []
  {
    if s == [] then [] else if s[0] == LF then [s[0]] else [s[0]] + FirstLine(s[1..])
  }

  lemma {:induction false} FirstLineOf(text: Bytes, more: Bytes)
    requires LF !in text
    ensures FirstLine(text + [LF] + more) == text + [LF]
  {
    var s := text + [LF] + more;
    if text == [] {
    } else {
      assert s[1..] == text[1..] + [LF] + more;
      FirstLineOf(text[1..], more);
    }
  }

  predicate Ended(line: Bytes) {
    line != [] && line[|line| - 1] == LF
  }

  /** A line that has its line feed is read the same wherever it leads; one that has none is all there was. */
  lemma {:induction false} LineStands(s: Bytes, x: Bytes)
    ensures Ended(FirstLine(s)) && FirstLine(s) <= x ==> FirstLine(x) == FirstLine(s)
    ensures !Ended(FirstLine(s)) ==> FirstLine(s) == s && LF !in s
  {
    if s != [] && s[0] != LF {
      var rest := FirstLine(s[1..]);
      assert FirstLine(s) == [s[0]] + rest;
      assert Ended(FirstLine(s)) <==> Ended(rest);
      if Ended(rest) && FirstLine(s) <= x {
        assert x[0] == s[0];
        assert rest == FirstLine(s)[1..] <= x[1..];
        LineStands(s[1..], x[1..]);
      } else if !Ended(rest) {
        LineStands(s[1..], []);
        assert s == [s[0]] + s[1..];
      }
    }
  }

  /** A socket or buffered reader, as the bytes that are still to come. The end of `rest` is the end of the
      stream or the point where reading fails. */
  class Reader {
    var rest: Bytes

    constructor (input: Bytes)
      ensures rest == input
    {
      rest := input;
    }

    /** `read_exact`: all n bytes or an error, which eats what was left. */
    method ReadExact(n: nat) returns (r: Option<Bytes>)
      modifies this
      ensures n <= |old(rest)| ==> r == Some(old(rest)[..n]) && rest == old(rest)[n..]
      ensures n > |old(rest)| ==> r == None && rest == []
    {
      if n <= |rest| {
        r, rest := Some(rest[..n]), rest[n..];
      } else {
        r, rest := None, [];
      }
    }

    /** `read_line`: reads to the line feed and fails when the line is not UTF-8. */
    method ReadLine() returns (line: Bytes, ok: bool)
      modifies this
      ensures line == FirstLine(old(rest)) && rest == old(rest)[|line|..] && ok == Utf8Valid(line)
    {
      line := FirstLine(rest);
      rest := rest[|line|..];
      ok := Utf8Valid(line);
    }
  }

  // ---------- frames ----------

  /** One read from the head of a stream: nothing (end of stream or error), or a message and the number of bytes
      it took. */
  datatype Read<M> = Stop | Got(msg: M, used: nat)

  type Framer<M> = Bytes -> Read<M>

  /** Every message takes at least one byte and no more than there are. */
  ghost predicate Progressive<M(!new)>(f: Framer<M>) {
    forall s: Bytes :: Sound(f(s), s)
  }

  predicate Sound<M>(r: Read<M>, s: Bytes) {
    r.Got? ==> 0 < r.used <= |s|
  }

  datatype Frame<M> = Frame(msg: M, wire: Bytes)

  /** What a read loop sees: messages until the first read that fails. */
  function Frames<M>(f: Framer<M>, s: Bytes): seq<Frame<M>>
    decreases |s|
  {
    var r := f(s);
    if r.Got? && Sound(r, s) then [Frame(r.msg, s[..r.used])] + Frames(f, s[r.used..]) else []
  }

  function Tail<M>(f: Framer<M>, s: Bytes): Bytes
    decreases |s|
  {
    var r := f(s);
    if r.Got? && Sound(r, s) then Tail(f, s[r.used..]) else s
  }

  function Wires<M>(frames: seq<Frame<M>>): seq<Bytes> {
    seq(|frames|, i requires 0 <= i < |frames| => frames[i].wire)
  }

  function Messages<M>(frames: seq<Frame<M>>): (ms: seq<M>)
    ensures |ms| == |frames| && forall i | 0 <= i < |ms| :: ms[i] == frames[i].msg
  {
    seq(|frames|, i requires 0 <= i < |frames| => frames[i].msg)
  }

  lemma WiresCons<M>(head: Frame<M>, rest: seq<Frame<M>>)
    ensures Flatten(Wires([head] + rest)) == head.wire + Flatten(Wires(rest))
  {
    assert Wires([head] + rest)[1..] == Wires(rest);
  }

  /** No byte is lost, duplicated or reordered: the input is the frames in order and one unfinished tail. */
  lemma {:induction false} FramesConserve<M>(f: Framer<M>, s: Bytes)
    ensures Flatten(Wires(Frames(f, s))) + Tail(f, s) == s
    decreases |s|
  {
    var r := f(s);
    if r.Got? && Sound(r, s) {
      var head, later := Frame(r.msg, s[..r.used]), s[r.used..];
      var rest, tail := Frames(f, later), Tail(f, later);
      assert Frames(f, s) == [head] + rest && Tail(f, s) == tail;
      assert s == head.wire + later;
      FramesConserve(f, later);
      hide Wires, Flatten, Frames, Tail;
      WiresCons(head, rest);
      Assoc(head.wire, Flatten(Wires(rest)), tail);
    } else {
      assert Wires(Frames(f, s)) == [];
    }
  }

  /** The tail is where reading stops, and every frame took at least one byte. */
  lemma {:induction false} TailStops<M(!new)>(f: Framer<M>, s: Bytes)
    requires Progressive(f)
    ensures f(Tail(f, s)).Stop?
    ensures forall i | 0 <= i < |Frames(f, s)| :: Frames(f, s)[i].wire != []
    decreases |s|
  {
    var r := f(s);
    assert Sound(r, s);
    if r.Got? {
      TailStops(f, s[r.used..]);
    }
  }

  /** What may follow a frame does not change how it is read. */
  ghost predicate ReadsAs<M>(f: Framer<M>, frame: Frame<M>) {
    frame.wire != [] && forall more: Bytes :: f(frame.wire + more) == Got(frame.msg, |frame.wire|)
  }

  lemma FramesOfOne<M>(f: Framer<M>, frame: Frame<M>, more: Bytes)
    requires ReadsAs(f, frame)
    ensures Frames(f, frame.wire + more) == [frame] + Frames(f, more)
    ensures Tail(f, frame.wire + more) == Tail(f, more)
  {
    var s := frame.wire + more;
    assert f(s) == Got(frame.msg, |frame.wire|);
    Seam(frame.wire, more);
  }

  /** A stream of well-formed frames followed by anything is read back as those frames. */
  lemma {:induction false} FramesOfConcat<M>(f: Framer<M>, frames: seq<Frame<M>>, more: Bytes)
    requires forall i | 0 <= i < |frames| :: ReadsAs(f, frames[i])
    ensures Frames(f, Flatten(Wires(frames)) + more) == frames + Frames(f, more)
    ensures Tail(f, Flatten(Wires(frames)) + more) == Tail(f, more)
  {
    if frames == [] {
      assert Flatten(Wires(frames)) + more == more;
    } else {
      hide Wires, Flatten;
      var head, rest := frames[0], frames[1..];
      assert frames == [head] + rest;
      WiresCons(head, rest);
      var later := Flatten(Wires(rest)) + more;
      Assoc(head.wire, Flatten(Wires(rest)), more);
      FramesOfOne(f, head, later);
      FramesOfConcat(f, rest, more);
    }
  }

  /** A successful read does not depend on what comes later. */
  ghost predicate PrefixStable<M>(f: Framer<M>) {
    forall a: Bytes, b: Bytes :: f(a).Got? ==> f(a + b) == f(a)
  }

  /** Bytes that arrive later never change the frames already read: they continue the tail. */
  lemma {:induction false} FramesOfMore<M>(f: Framer<M>, a: Bytes, b: Bytes)
    requires PrefixStable(f)
    ensures Frames(f, a + b) == Frames(f, a) + Frames(f, Tail(f, a) + b)
    ensures Tail(f, a + b) == Tail(f, Tail(f, a) + b)
    decreases |a|
  {
    var r := f(a);
    if r.Got? && Sound(r, a) {
      assert f(a + b) == r;
      assert (a + b)[..r.used] == a[..r.used];
      assert (a + b)[r.used..] == a[r.used..] + b;
      FramesOfMore(f, a[r.used..], b);
    }
  }

  /** A stretch of the stream that is read to its end stands on its own: what follows is read as if it came
      first. */
  lemma FramesOfParts<M>(f: Framer<M>, a: Bytes, b: Bytes)
    requires PrefixStable(f) && Tail(f, a) == []
    ensures Frames(f, a + b) == Frames(f, a) + Frames(f, b)
    ensures Tail(f, a + b) == Tail(f, b)
  {
    FramesOfMore(f, a, b);
    assert [] + b == b;
  }

  /** A message that is a frame by itself, whatever follows. */
  ghost predicate StandsAs<M>(f: Framer<M>, msg: M, wire: Bytes) {
    wire != [] && f(wire) == Got(msg, |wire|)
  }

  lemma StableReads<M>(f: Framer<M>, msg: M, wire: Bytes)
    requires PrefixStable(f) && StandsAs(f, msg, wire)
    ensures ReadsAs(f, Frame(msg, wire))
  {
  }

  /** The messages that are read off a stretch of bytes. */
  function Received<M>(f: Framer<M>, s: Bytes): seq<M> {
    Messages(Frames(f, s))
  }

  /** Messages that stand by themselves are read back from their concatenation. */
  lemma ReadsBack(f: Framer<Bytes>, ms: seq<Bytes>, more: Bytes)
    requires PrefixStable(f) && forall m | m in ms :: StandsAs(f, m, m)
    ensures Received(f, Flatten(ms) + more) == ms + Received(f, more)
    ensures Received(f, []) == []
  {
    hide Flatten;
    var frames := seq(|ms|, i requires 0 <= i < |ms| => Frame(ms[i], ms[i]));
    forall i | 0 <= i < |frames| ensures ReadsAs(f, frames[i]) {
      assert ms[i] in ms;
      StableReads(f, ms[i], ms[i]);
    }
    assert Wires(frames) == ms && Messages(frames) == ms;
    FramesOfConcat(f, frames, more);
  }

  /** Of a message that has only partly arrived nothing is read. */
  lemma PartIsNotRead(f: Framer<Bytes>, m: Bytes, piece: Bytes)
    requires PrefixStable(f) && StandsAs(f, m, m) && piece < m
    ensures Received(f, piece) == []
  {
    assert m == piece + m[|piece|..];
  }

  /** A framer that hands out the very bytes it takes. */
  ghost predicate Verbatim(f: Framer<Bytes>) {
    forall s: Bytes :: f(s).Got? ==> 0 < f(s).used <= |s| && f(s).msg == s[..f(s).used]
  }

  lemma FramesStep<M>(f: Framer<M>, s: Bytes)
    requires f(s).Got? && Sound(f(s), s)
    ensures var r := f(s);
            && Frames(f, s) == [Frame(r.msg, s[..r.used])] + Frames(f, s[r.used..])
            && Tail(f, s) == Tail(f, s[r.used..])
  {
  }

  lemma ReceivedStep(f: Framer<Bytes>, s: Bytes)
    requires Verbatim(f)
    ensures var r := f(s);
            if r.Got? then Received(f, s) == [r.msg] + Received(f, s[r.used..]) && Tail(f, s) == Tail(f, s[r.used..])
            else Received(f, s) == [] && Tail(f, s) == s
  {
    if f(s).Got? {
      FramesStep(f, s);
      hide Frames, Tail;
    }
  }

  /** Such a framer's messages and its tail are the bytes again. */
  lemma {:induction false} VerbatimConserves(f: Framer<Bytes>, s: Bytes)
    requires Verbatim(f)
    ensures Flatten(Received(f, s)) + Tail(f, s) == s
    ensures forall m | m in Received(f, s) :: m != []
    decreases |s|
  {
    hide Received, Tail, Flatten;
    var r := f(s);
    ReceivedStep(f, s);
    if r.Got? {
      var later := s[r.used..];
      VerbatimConserves(f, later);
      FlattenAppend([r.msg], Received(f, later));
      FlattenOne(r.msg);
      Assoc(r.msg, Flatten(Received(f, later)), Tail(f, later));
      assert s == r.msg + later;
    } else {
      FlattenNothing();
    }
  }

  lemma FlattenNothing()
    ensures Flatten<byte>([]) == []
  {
  }

  /** More bytes never take back a message. */
  lemma ReceivedGrows(f: Framer<Bytes>, a: Bytes, b: Bytes)
    requires PrefixStable(f)
    ensures Received(f, a) <= Received(f, a + b)
  {
    FramesOfMore(f, a, b);
  }
}

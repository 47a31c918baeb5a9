/**
 * Several writers and one reader share a wire. A writer holds the write lock for one
 * frame at a time, so frames of different writes interleave on the wire in any order;
 * the reader cuts the byte stream anywhere.
 */
module MuxerProtocol {
  import opened Bytes
  import opened MuxFrames
  import DM = DeviceMuxers
  import opened Sequences

  /** A thread that makes the given write calls on one channel, one after another. */
  datatype Writer = Writer(chan: nat, calls: seq<seq<byte>>, begun: nat, left: seq<Frame>)

  /** `sent` and `delivered` record the frames that went onto the wire and came off it, `senders` by whom. */
  datatype State = State(
    writers: seq<Writer>,
    wire: seq<byte>,
    buffer: seq<byte>,
    data: map<nat, seq<byte>>,
    taken: map<nat, seq<byte>>,
    sent: seq<Frame>,
    senders: seq<nat>,
    delivered: seq<Frame>)

  datatype Step =
    | BeginWrite(i: nat)
    | SendFrame(i: nat)
    | Receive(n: nat)
    | TakeData(chan: nat, n: nat)

  predicate Enabled(s: State, step: Step) {
    match step
    case BeginWrite(i) =>
      i < |s.writers| && s.writers[i].left == [] && s.writers[i].begun < |s.writers[i].calls|
    case SendFrame(i) => i < |s.writers| && s.writers[i].left != []
    case Receive(n) => n <= |s.wire|
    case TakeData(chan, n) => n <= |DM.Get(s.data, chan)|
  }

  ghost predicate WellFormed(s: State) {
    forall i :: 0 <= i < |s.writers| ==>
      && s.writers[i].chan < 0x1_0000
      && s.writers[i].begun <= |s.writers[i].calls|
      && Valid(s.writers[i].left)
  }

  function Next(s: State, step: Step): State
    requires WellFormed(s) && Enabled(s, step)
  {
    match step
    case BeginWrite(i) =>
      var w := s.writers[i];
      s.(writers := s.writers[i := w.(begun := w.begun + 1, left := Chunks(w.chan, w.calls[w.begun]))])
    case SendFrame(i) =>
      var w := s.writers[i];
      s.(writers := s.writers[i := w.(left := w.left[1..])],
         wire := s.wire + EncodeFrame(w.left[0]),
         sent := s.sent + [w.left[0]],
         senders := s.senders + [i])
    case Receive(n) =>
      var p := Parse(s.buffer + s.wire[..n]);
      s.(wire := s.wire[n..], buffer := p.rest, data := DM.Deliver(s.data, p.frames),
         delivered := s.delivered + p.frames)
    case TakeData(chan, n) =>
      var buf := DM.Get(s.data, chan);
      s.(data := s.data[chan := buf[n..]], taken := s.taken[chan := DM.Get(s.taken, chan) + buf[..n]])
  }

  ghost predicate Initial(s: State) {
    && WellFormed(s)
    && (forall i :: 0 <= i < |s.writers| ==> s.writers[i].begun == 0 && s.writers[i].left == [])
    && s.wire == [] && s.buffer == [] && s.data == map[] && s.taken == map[]
    && s.sent == [] && s.senders == [] && s.delivered == []
  }

  /** All data that has reached a channel, whether its reader has taken it yet or not. */
  function Received(s: State, chan: nat): seq<byte> {
    DM.Get(s.taken, chan) + DM.Get(s.data, chan)
  }

  /** Everything written on the channel by a writer's begun calls. */
  function Written(w: Writer): seq<byte>
    requires w.begun <= |w.calls|
  {
    Concat(w.calls[..w.begun])
  }

  /** No other writer uses the channel of writer `i`. */
  ghost predicate SoleWriter(s: State, i: nat)
    requires i < |s.writers|
  {
    forall j :: 0 <= j < |s.writers| && j != i ==> s.writers[j].chan != s.writers[i].chan
  }

  ghost predicate WriterInv(w: Writer, sent: seq<Frame>)
    requires w.begun <= |w.calls|
  {
    Payloads(w.chan, sent) + Payloads(w.chan, w.left) == Written(w)
  }

  ghost predicate WireInv(s: State) {
    && Valid(s.sent) && Valid(s.delivered)
    && s.delivered <= s.sent
    && Valid(s.sent[|s.delivered|..])
    && s.buffer + s.wire == Encode(s.sent[|s.delivered|..])
    && !HasFrame(s.buffer)
  }

  ghost predicate Inv(s: State) {
    && WellFormed(s)
    && WireInv(s)
    && (forall c: nat :: Received(s, c) == Payloads(c, s.delivered))
    && (forall i :: 0 <= i < |s.writers| ==>
          && (forall f :: f in s.writers[i].left ==> f.chan == s.writers[i].chan)
          && (SoleWriter(s, i) ==> WriterInv(s.writers[i], s.sent)))
  }

  lemma InitialInv(s: State)
    requires Initial(s)
    ensures Inv(s)
  {
    forall i | 0 <= i < |s.writers| ensures WriterInv(s.writers[i], s.sent) {
      assert s.writers[i].calls[..0] == [];
    }
  }

  lemma WireSend(s: State, f: Frame)
    requires WireInv(s) && ValidFrame(f)
    ensures WireInv(s.(wire := s.wire + EncodeFrame(f), sent := s.sent + [f]))
  {
    hide EncodeFrame;
    var open := s.sent[|s.delivered|..];
    EncodeAppend(open, [f]);
    EncodeFirst(f, []);
    assert [f] + [] == [f];
    EncodeNothing(EncodeFrame(f));
    assert Encode([f]) == EncodeFrame(f) + Encode([]) == EncodeFrame(f);
    Associate(s.buffer, s.wire, EncodeFrame(f));
    assert (s.sent + [f])[|s.delivered|..] == open + [f];
    hide Encode;
    assert s.buffer + (s.wire + EncodeFrame(f)) == Encode(open) + Encode([f]);
  }

  /** Any cut of the wire yields whole frames in the order they were sent. */
  lemma WireReceive(s: State, n: nat)
    requires WireInv(s) && n <= |s.wire|
    ensures var p := Parse(s.buffer + s.wire[..n]);
            WireInv(s.(wire := s.wire[n..], buffer := p.rest, delivered := s.delivered + p.frames))
  {
    hide Encode, Parse, EncodeFrame;
    var open := s.sent[|s.delivered|..];
    var head, tail := s.wire[..n], s.wire[n..];
    var p := Parse(s.buffer + head);
    var q := Parse(p.rest + tail);
    assert s.wire == head + tail;
    Associate(s.buffer, head, tail);
    ParseAppend(s.buffer + head, tail);
    ParseEncode(open, []);
    ParseOfNothing();
    EncodeNothing(Encode(open));
    assert Encode(open) + [] == Encode(open);
    assert open + [] == open;
    assert Parse(s.buffer + s.wire) == Parsed(open, []);
    assert open == p.frames + q.frames && q.rest == [];
    ParseSound(p.rest + tail);
    assert Encode(q.frames) + [] == Encode(q.frames);
    assert s.sent == s.delivered + open;
    Associate(s.delivered, p.frames, q.frames);
    assert s.sent[|s.delivered + p.frames|..] == q.frames;
    assert s.delivered + p.frames <= s.sent;
  }

  lemma ParseOfNothing()
    ensures Parse([]) == Parsed([], [])
  {
  }

  ghost predicate SameWriters(s: State, t: State) {
    && |t.writers| == |s.writers|
    && forall i :: 0 <= i < |s.writers| ==>
         t.writers[i].chan == s.writers[i].chan && t.writers[i].calls == s.writers[i].calls
  }

  lemma NextKeepsWriters(s: State, step: Step)
    requires WellFormed(s) && Enabled(s, step)
    ensures SameWriters(s, Next(s, step))
  {
  }

  lemma SoleWriterKept(s: State, t: State, i: nat)
    requires SameWriters(s, t) && i < |s.writers|
    ensures SoleWriter(t, i) <==> SoleWriter(s, i)
  {
    if !SoleWriter(s, i) {
      var j :| 0 <= j < |s.writers| && j != i && s.writers[j].chan == s.writers[i].chan;
      assert t.writers[j].chan == t.writers[i].chan;
    }
    if !SoleWriter(t, i) {
      var j :| 0 <= j < |t.writers| && j != i && t.writers[j].chan == t.writers[i].chan;
      assert s.writers[j].chan == s.writers[i].chan;
    }
  }

  lemma WriterBegins(w: Writer, sent: seq<Frame>)
    requires w.chan < 0x1_0000 && w.begun < |w.calls| && w.left == [] && WriterInv(w, sent)
    ensures WriterInv(w.(begun := w.begun + 1, left := Chunks(w.chan, w.calls[w.begun])), sent)
  {
    ChunksCarryData(w.chan, w.calls[w.begun], w.chan);
    assert w.calls[..w.begun + 1] == w.calls[..w.begun] + [w.calls[w.begun]];
    ConcatAppend(w.calls[..w.begun], w.calls[w.begun]);
    assert Payloads(w.chan, sent) + [] == Payloads(w.chan, sent);
  }

  lemma BeginWriteInv(s: State, i: nat)
    requires Inv(s) && Enabled(s, BeginWrite(i))
    ensures Inv(Next(s, BeginWrite(i)))
  {
    hide Chunks, Payloads, WriterInv, SoleWriter, Encode, Parse, Concat;
    var t := Next(s, BeginWrite(i));
    var w := s.writers[i];
    NextKeepsWriters(s, BeginWrite(i));
    ChunksCarryData(w.chan, w.calls[w.begun], w.chan);
    forall j | 0 <= j < |t.writers| && SoleWriter(t, j)
      ensures WriterInv(t.writers[j], t.sent)
    {
      SoleWriterKept(s, t, j);
      if j == i { WriterBegins(w, s.sent); }
    }
  }

  lemma WriterSends(w: Writer, sent: seq<Frame>)
    requires w.begun <= |w.calls| && w.left != [] && w.left[0].chan == w.chan && WriterInv(w, sent)
    ensures WriterInv(w.(left := w.left[1..]), sent + [w.left[0]])
  {
    var f, more := w.left[0], w.left[1..];
    assert w.left == [f] + more;
    PayloadsAppend(w.chan, sent, [f]);
    PayloadsFirst(w.chan, f, []);
    assert [f] + [] == [f];
    PayloadsFirst(w.chan, f, more);
    Associate(Payloads(w.chan, sent), f.payload, Payloads(w.chan, more));
    assert f.payload + [] == f.payload;
  }

  lemma OtherWriterSends(w: Writer, sent: seq<Frame>, f: Frame)
    requires w.begun <= |w.calls| && f.chan != w.chan && WriterInv(w, sent)
    ensures WriterInv(w, sent + [f])
  {
    PayloadsAppend(w.chan, sent, [f]);
    PayloadsFirst(w.chan, f, []);
    assert [f] + [] == [f];
    assert Payloads(w.chan, sent) + [] == Payloads(w.chan, sent);
  }

  lemma SendFrameInv(s: State, i: nat)
    requires Inv(s) && Enabled(s, SendFrame(i))
    ensures Inv(Next(s, SendFrame(i)))
  {
    hide Encode, EncodeFrame, Parse, Payloads, WriterInv;
    var t := Next(s, SendFrame(i));
    var w := s.writers[i];
    WireSend(s, w.left[0]);
    NextKeepsWriters(s, SendFrame(i));
    forall j | 0 <= j < |t.writers| && SoleWriter(t, j)
      ensures WriterInv(t.writers[j], t.sent)
    {
      SoleWriterKept(s, t, j);
      if j == i {
        WriterSends(w, s.sent);
      } else {
        assert t.writers[i].chan == w.chan;
        OtherWriterSends(s.writers[j], s.sent, w.left[0]);
      }
    }
  }

  lemma ReceiveInv(s: State, n: nat)
    requires Inv(s) && Enabled(s, Receive(n))
    ensures Inv(Next(s, Receive(n)))
  {
    hide Encode, EncodeFrame, Parse, Payloads;
    var t := Next(s, Receive(n));
    var p := Parse(s.buffer + s.wire[..n]);
    WireReceive(s, n);
    forall c: nat ensures Received(t, c) == Payloads(c, t.delivered) {
      DM.DeliverAppends(s.data, p.frames, c);
      PayloadsAppend(c, s.delivered, p.frames);
      Associate(DM.Get(s.taken, c), DM.Get(s.data, c), Payloads(c, p.frames));
    }
    forall j | 0 <= j < |t.writers| && SoleWriter(t, j)
      ensures WriterInv(t.writers[j], t.sent)
    {
      assert SoleWriter(s, j);
    }
  }

  lemma TakeDataInv(s: State, chan: nat, n: nat)
    requires Inv(s) && Enabled(s, TakeData(chan, n))
    ensures Inv(Next(s, TakeData(chan, n)))
  {
    hide Encode, EncodeFrame, Parse, Payloads;
    var t := Next(s, TakeData(chan, n));
    var buf := DM.Get(s.data, chan);
    assert buf == buf[..n] + buf[n..];
    Associate(DM.Get(s.taken, chan), buf[..n], buf[n..]);
    forall c: nat ensures Received(t, c) == Received(s, c) {
    }
    forall j | 0 <= j < |t.writers| && SoleWriter(t, j)
      ensures WriterInv(t.writers[j], t.sent)
    {
      assert SoleWriter(s, j);
    }
  }

  /** Every step of every participant keeps the invariant. */
  lemma StepInv(s: State, step: Step)
    requires Inv(s) && Enabled(s, step)
    ensures Inv(Next(s, step))
  {
    match step {
      case BeginWrite(i) => BeginWriteInv(s, i);
      case SendFrame(i) => SendFrameInv(s, i);
      case Receive(n) => ReceiveInv(s, n);
      case TakeData(chan, n) => TakeDataInv(s, chan, n);
    }
  }

  lemma NextWellFormed(s: State, step: Step)
    requires WellFormed(s) && Enabled(s, step)
    ensures WellFormed(Next(s, step))
  {
  }

  /** `t` is reached from `s` by the given schedule. */
  ghost predicate Runs(s: State, steps: seq<Step>, t: State)
    requires WellFormed(s)
    decreases |steps|
  {
    if steps == [] then s == t
    else if !Enabled(s, steps[0]) then false
    else
      NextWellFormed(s, steps[0]);
      Runs(Next(s, steps[0]), steps[1..], t)
  }

  lemma {:induction false} RunInv(s: State, steps: seq<Step>, t: State)
    requires Inv(s) && Runs(s, steps, t)
    ensures Inv(t) && SameWriters(s, t)
    decreases |steps|
  {
    if steps != [] {
      StepInv(s, steps[0]);
      NextKeepsWriters(s, steps[0]);
      hide Inv, Next, WellFormed;
      RunInv(Next(s, steps[0]), steps[1..], t);
    }
  }

  /**
   * Under every schedule, what has reached a channel with one writer is a prefix of what
   * its writer has written, and nothing is missing once the writer has sent all its
   * frames and the wire is drained.
   */
  lemma ChannelReceivesItsWrites(s: State, steps: seq<Step>, t: State, i: nat)
    requires Initial(s) && Runs(s, steps, t)
    requires i < |s.writers| && SoleWriter(s, i)
    ensures |t.writers| == |s.writers| && t.writers[i].begun <= |s.writers[i].calls|
    ensures Received(t, s.writers[i].chan) <= Concat(s.writers[i].calls[..t.writers[i].begun])
    ensures t.writers[i].left == [] && t.wire == [] ==>
              Received(t, s.writers[i].chan) == Concat(s.writers[i].calls[..t.writers[i].begun])
  {
    InitialInv(s);
    RunInv(s, steps, t);
    SoleWriterKept(s, t, i);
    InvDelivers(t, i);
  }

  lemma InvDelivers(t: State, i: nat)
    requires Inv(t) && i < |t.writers| && SoleWriter(t, i)
    ensures Received(t, t.writers[i].chan) <= Written(t.writers[i])
    ensures t.writers[i].left == [] && t.wire == [] ==> Received(t, t.writers[i].chan) == Written(t.writers[i])
  {
    hide Received, Written;
    var w := t.writers[i];
    var rest := t.sent[|t.delivered|..];
    assert t.sent == t.delivered + rest;
    PayloadsAppend(w.chan, t.delivered, rest);
    Associate(Payloads(w.chan, t.delivered), Payloads(w.chan, rest), Payloads(w.chan, w.left));
    if w.left == [] && t.wire == [] {
      assert t.buffer + t.wire == t.buffer;
      DrainedWireIsComplete(rest);
      NothingPaid(w.chan);
    }
  }

  lemma DrainedWireIsComplete(rest: seq<Frame>)
    requires Valid(rest) && !HasFrame(Encode(rest))
    ensures rest == []
  {
    if rest != [] {
      FrameRoundTrip(rest[0], Encode(rest[1..]));
    }
  }

  lemma NothingPaid(chan: nat)
    ensures Payloads(chan, []) == []
  {
  }

  // ---- Channels with several writers ----

  /** The frames that writer `i` has put on the wire, in order. */
  function FramesOf(sent: seq<Frame>, senders: seq<nat>, i: nat): seq<Frame>
    requires |sent| == |senders|
  {
    if sent == [] then []
    else
      var n := |sent| - 1;
      FramesOf(sent[..n], senders[..n], i) + if senders[n] == i then [sent[n]] else []
  }

  /** The frames of a writer's first `n` calls. */
  function AllChunks(w: Writer, n: nat): seq<Frame>
    requires w.chan < 0x1_0000 && n <= |w.calls|
  {
    if n == 0 then [] else AllChunks(w, n - 1) + Chunks(w.chan, w.calls[n - 1])
  }

  ghost predicate Tagged(s: State)
    requires WellFormed(s)
  {
    && |s.senders| == |s.sent|
    && forall i :: 0 <= i < |s.writers| ==>
         FramesOf(s.sent, s.senders, i) + s.writers[i].left == AllChunks(s.writers[i], s.writers[i].begun)
  }

  lemma FramesOfOneMore(sent: seq<Frame>, senders: seq<nat>, f: Frame, j: nat, i: nat)
    requires |sent| == |senders|
    ensures FramesOf(sent + [f], senders + [j], i) == FramesOf(sent, senders, i) + if j == i then [f] else []
  {
    assert (sent + [f])[..|sent|] == sent && (senders + [j])[..|sent|] == senders;
  }

  lemma {:induction false} ChunksDependOnCalls(v: Writer, w: Writer, n: nat)
    requires w.chan < 0x1_0000 && n <= |w.calls| && v.chan == w.chan && v.calls == w.calls
    ensures AllChunks(v, n) == AllChunks(w, n)
  {
    if n > 0 { ChunksDependOnCalls(v, w, n - 1); }
  }

  ghost predicate TaggedWriter(s: State, w: Writer, i: nat)
    requires |s.senders| == |s.sent| && w.chan < 0x1_0000 && w.begun <= |w.calls|
  {
    FramesOf(s.sent, s.senders, i) + w.left == AllChunks(w, w.begun)
  }

  lemma WriterTagged(s: State, step: Step, i: nat)
    requires WellFormed(s) && |s.senders| == |s.sent| && Enabled(s, step) && i < |s.writers|
    requires TaggedWriter(s, s.writers[i], i)
    ensures WellFormed(Next(s, step)) && |Next(s, step).senders| == |Next(s, step).sent|
    ensures TaggedWriter(Next(s, step), Next(s, step).writers[i], i)
  {
    NextWellFormed(s, step);
    hide Chunks, Parse, Valid, EncodeFrame;
    var own, v, w := FramesOf(s.sent, s.senders, i), s.writers[i], Next(s, step).writers[i];
    ChunksDependOnCalls(w, v, v.begun);
    if step.SendFrame? {
      var f := s.writers[step.i].left[0];
      FramesOfOneMore(s.sent, s.senders, f, step.i, i);
      if step.i == i {
        assert own + [f] + v.left[1..] == own + v.left;
      } else {
        assert own + [] == own;
      }
    } else if step == BeginWrite(i) {
      assert own + [] == own;
    }
  }

  lemma StepTagged(s: State, step: Step)
    requires WellFormed(s) && Tagged(s) && Enabled(s, step)
    ensures WellFormed(Next(s, step)) && Tagged(Next(s, step))
  {
    NextWellFormed(s, step);
    var t := Next(s, step);
    assert |t.writers| == |s.writers| && |t.senders| == |t.sent|;
    hide Next, Enabled;
    forall i | 0 <= i < |t.writers|
      ensures FramesOf(t.sent, t.senders, i) + t.writers[i].left == AllChunks(t.writers[i], t.writers[i].begun)
    {
      assert TaggedWriter(s, s.writers[i], i);
      WriterTagged(s, step, i);
    }
  }

  lemma {:induction false} RunTagged(s: State, steps: seq<Step>, t: State)
    requires WellFormed(s) && Tagged(s) && Runs(s, steps, t)
    ensures WellFormed(t) && Tagged(t)
    decreases |steps|
  {
    if steps != [] {
      StepTagged(s, steps[0]);
      hide Next, Tagged, WellFormed;
      RunTagged(Next(s, steps[0]), steps[1..], t);
    }
  }

  lemma InitiallyTagged(s: State)
    requires Initial(s)
    ensures Tagged(s)
  {
  }

  lemma InvDrained(t: State)
    requires Inv(t) && t.wire == []
    ensures t.delivered == t.sent
  {
    var rest := t.sent[|t.delivered|..];
    assert t.buffer + t.wire == t.buffer;
    DrainedWireIsComplete(rest);
  }

  /**
   * Whoever shares a channel: each writer's frames are on the wire in order, as the chunks of its calls;
   * the reader has got a prefix of all frames sent, and all of them once the wire is drained.
   */
  lemma EveryWriterIsHeard(s: State, steps: seq<Step>, t: State, i: nat)
    requires Initial(s) && Runs(s, steps, t) && i < |s.writers|
    ensures |t.writers| == |s.writers| && |t.senders| == |t.sent| && t.writers[i].begun <= |s.writers[i].calls|
    ensures FramesOf(t.sent, t.senders, i) + t.writers[i].left == AllChunks(s.writers[i], t.writers[i].begun)
    ensures t.delivered <= t.sent && (t.wire == [] ==> t.delivered == t.sent)
    ensures forall c: nat :: Received(t, c) == Payloads(c, t.delivered)
  {
    hide Runs, Received, FramesOf, AllChunks;
    InitialInv(s);
    InitiallyTagged(s);
    RunInv(s, steps, t);
    RunTagged(s, steps, t);
    ChunksDependOnCalls(t.writers[i], s.writers[i], t.writers[i].begun);
    if t.wire == [] { InvDrained(t); }
  }
}

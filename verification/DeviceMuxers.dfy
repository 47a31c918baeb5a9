/**
 * The multiplexer itself: writing through a device that may accept any part of what
 * it is given, and reading from one that delivers its bytes in arbitrary chunks.
 */
module DeviceMuxers {
  import opened Bytes
  import opened MuxFrames
  import opened Sequences

  /**
   * A byte device. `script` fixes how it answers the next writes: a negative answer is
   * an error code, any other the most bytes it accepts; once used up, writes succeed whole.
   * `incoming` are the chunks it will hand out when read.
   */
  class Device {
    var sent: seq<byte>
    var script: seq<int>
    var incoming: seq<seq<byte>>

    method Write(buf: seq<byte>) returns (written: int)
      modifies this`sent, this`script
      ensures old(script) == [] ==> written == |buf| && script == []
      ensures old(script) != [] ==> script == old(script)[1..]
      ensures old(script) != [] ==> written == if old(script)[0] <= |buf| then old(script)[0] else |buf|
      ensures sent == old(sent) + if written < 0 then [] else buf[..written]
    {
      if script == [] {
        written := |buf|;
      } else {
        written := if script[0] <= |buf| then script[0] else |buf|;
        script := script[1..];
      }
      if written >= 0 {
        sent := sent + buf[..written];
      }
    }

    method ReadAll() returns (chunk: seq<byte>)
      modifies this`incoming
      ensures old(incoming) == [] ==> chunk == [] && incoming == []
      ensures old(incoming) != [] ==> chunk == old(incoming)[0] && incoming == old(incoming)[1..]
    {
      if incoming == [] {
        chunk := [];
      } else {
        chunk := incoming[0];
        incoming := incoming[1..];
      }
    }
  }

  // ---- Channel buffers as a map with empty defaults ----

  function Get(data: map<nat, seq<byte>>, chan: nat): seq<byte> {
    if chan in data then data[chan] else []
  }

  /** The channel buffers after the given frames have been delivered, one after another. */
  function Deliver(data: map<nat, seq<byte>>, fs: seq<Frame>): map<nat, seq<byte>>
    decreases |fs|
  {
    if fs == [] then data
    else
      var f := fs[|fs| - 1];
      var before := Deliver(data, fs[..|fs| - 1]);
      before[f.chan := Get(before, f.chan) + f.payload]
  }

  lemma {:induction false} DeliverAppends(data: map<nat, seq<byte>>, fs: seq<Frame>, chan: nat)
    ensures Get(Deliver(data, fs), chan) == Get(data, chan) + Payloads(chan, fs)
    decreases |fs|
  {
    if fs != [] {
      var f, before := fs[|fs| - 1], fs[..|fs| - 1];
      DeliverAppends(data, before, chan);
      assert fs == before + [f];
      DeliverOne(data, before, f);
      PayloadsAppend(chan, before, [f]);
      PayloadsFirst(chan, f, []);
      assert [f] + [] == [f];
      hide Deliver, Payloads;
      Associate(Get(data, chan), Payloads(chan, before), f.payload);
      assert f.payload + Payloads(chan, []) == f.payload;
    }
  }

  lemma DeliverOne(data: map<nat, seq<byte>>, fs: seq<Frame>, f: Frame)
    ensures Deliver(data, fs + [f]) == Deliver(data, fs)[f.chan := Get(Deliver(data, fs), f.chan) + f.payload]
  {
    assert (fs + [f])[..|fs|] == fs;
  }

  function Emitted(fs: seq<Frame>, before: map<nat, bool>): map<nat, bool>
    decreases |fs|
  {
    if fs == [] then before else Emitted(fs[..|fs| - 1], before)[fs[|fs| - 1].chan := true]
  }

  lemma EmittedOne(fs: seq<Frame>, f: Frame, before: map<nat, bool>)
    ensures Emitted(fs + [f], before) == Emitted(fs, before)[f.chan := true]
  {
    assert (fs + [f])[..|fs|] == fs;
  }

  /** A signal has been raised for exactly the channels of these frames and those it was raised for before. */
  lemma {:induction false} EmittedMeans(fs: seq<Frame>, before: map<nat, bool>, chan: nat)
    ensures chan in Emitted(fs, before) && Emitted(fs, before)[chan] <==>
              (chan in before && before[chan]) || exists f :: f in fs && f.chan == chan
    decreases |fs|
  {
    if fs != [] {
      EmittedMeans(fs[..|fs| - 1], before, chan);
      assert fs == fs[..|fs| - 1] + [fs[|fs| - 1]];
    }
  }

  // ---- Progress of a reader ----

  /** `done` are the frames taken out of the bytes seen so far, `buffer` what is left of them. */
  ghost predicate Reading(seen: seq<byte>, done: seq<Frame>, buffer: seq<byte>) {
    Valid(done) && Encode(done) + buffer == seen
  }

  lemma ReadingAtStart(buffer: seq<byte>)
    ensures Reading(buffer, [], buffer)
  {
    EncodeNothing(buffer);
  }

  lemma SeenStep(seen: seq<byte>, chunk: seq<byte>, incoming: seq<seq<byte>>)
    requires chunk == if incoming == [] then [] else incoming[0]
    ensures seen + chunk + Concat(if incoming == [] then [] else incoming[1..]) == seen + Concat(incoming)
  {
    if incoming != [] {
      Associate(seen, chunk, Concat(incoming[1..]));
    } else {
      assert seen + chunk == seen;
    }
  }

  lemma StartsEmpty(data: map<nat, seq<byte>>, emitted: map<nat, bool>)
    ensures Deliver(data, []) == data && Emitted([], emitted) == emitted
  {
  }

  lemma AfterFrameIsShorter(buffer: seq<byte>)
    requires HasFrame(buffer)
    ensures |AfterFrame(buffer)| < |buffer|
  {
  }

  lemma ReadingMore(seen: seq<byte>, done: seq<Frame>, buffer: seq<byte>, chunk: seq<byte>)
    requires Reading(seen, done, buffer)
    ensures Reading(seen + chunk, done, buffer + chunk)
  {
    Associate(Encode(done), buffer, chunk);
  }

  lemma ReadingFrame(seen: seq<byte>, done: seq<Frame>, buffer: seq<byte>)
    requires Reading(seen, done, buffer) && HasFrame(buffer)
    ensures Reading(seen, done + [FirstFrame(buffer)], AfterFrame(buffer))
  {
    var f := FirstFrame(buffer);
    EncodeAppend(done, [f]);
    EncodeFirst(f, []);
    FirstFrameEncodes(buffer);
    hide FirstFrame, AfterFrame, EncodeFrame;
    assert [f] + [] == [f];
    EncodeNothing(EncodeFrame(f));
    assert EncodeFrame(f) + Encode([]) == EncodeFrame(f);
    Associate(Encode(done), EncodeFrame(f), AfterFrame(buffer));
  }

  lemma ReadingDone(seen: seq<byte>, done: seq<Frame>, buffer: seq<byte>)
    requires Reading(seen, done, buffer) && !HasFrame(buffer)
    ensures Parse(seen) == Parsed(done, buffer)
  {
    ParseEncode(done, buffer);
    assert done + [] == done;
  }

  /**
   * The device eventually supplies the bytes of every frame it begins: once all chunks
   * are in, no frame is left that has a header but lacks payload.
   */
  ghost predicate CompletesFrames(buffer: seq<byte>, incoming: seq<seq<byte>>) {
    |Parse(buffer + Concat(incoming)).rest| < HEADER_SIZE
  }

  lemma CompletesAfterChunk(buffer: seq<byte>, incoming: seq<seq<byte>>)
    requires CompletesFrames(buffer, incoming)
    ensures incoming != [] ==> CompletesFrames(buffer + incoming[0], incoming[1..])
    ensures incoming == [] ==> |buffer| < HEADER_SIZE || HasFrame(buffer)
  {
    if incoming != [] {
      Associate(buffer, incoming[0], Concat(incoming[1..]));
    } else {
      assert buffer + Concat(incoming) == buffer;
    }
  }

  lemma CompletesAfterFrame(buffer: seq<byte>, incoming: seq<seq<byte>>)
    requires CompletesFrames(buffer, incoming) && HasFrame(buffer)
    ensures CompletesFrames(AfterFrame(buffer), incoming)
  {
    var f := FirstFrame(buffer);
    FirstFrameEncodes(buffer);
    hide FirstFrame, AfterFrame, EncodeFrame;
    Associate(EncodeFrame(f), AfterFrame(buffer), Concat(incoming));
    ParseFirst(f, AfterFrame(buffer) + Concat(incoming));
  }

  // ---- Outcomes of a write ----

  /** No answer among these is an error. */
  ghost predicate ErrorFree(answers: seq<int>) {
    forall a :: a in answers ==> a >= 0
  }

  lemma ErrorFreeJoin(a: seq<int>, b: seq<int>)
    ensures ErrorFree(a + b) <==> ErrorFree(a) && ErrorFree(b)
  {
    if ErrorFree(a + b) {
      assert forall x :: x in a ==> x in a + b;
      assert forall x :: x in b ==> x in a + b;
    }
  }

  /** `p` is a proper prefix of a frame: some of it, not all of it. */
  ghost predicate ProperPrefix(p: seq<byte>, f: Frame)
    requires ValidFrame(f)
  {
    |p| < |EncodeFrame(f)| && p == EncodeFrame(f)[..|p|]
  }

  /** The wire gained the first `k` frames and then only `p`. */
  ghost predicate Gained(before: seq<byte>, after: seq<byte>, fs: seq<Frame>, k: nat, p: seq<byte>)
    requires Valid(fs) && k <= |fs|
  {
    Valid(fs[..k]) && after == before + Encode(fs[..k]) + p
  }

  lemma GainedNext(before: seq<byte>, after: seq<byte>, fs: seq<Frame>, k: nat)
    requires Valid(fs) && k < |fs| && Gained(before, after, fs, k, EncodeFrame(fs[k]))
    ensures Gained(before, after, fs, k + 1, [])
  {
    hide EncodeFrame;
    assert fs[..k + 1] == fs[..k] + [fs[k]];
    EncodeAppend(fs[..k], [fs[k]]);
    EncodeFirst(fs[k], []);
    assert [fs[k]] + [] == [fs[k]];
    assert Encode([fs[k]]) == EncodeFrame(fs[k]);
  }

  /**
   * What sending one frame amounts to, given the device's answers: all of it, or a
   * proper prefix if the last answer is an error.
   */
  ghost predicate FrameOutcome(f: Frame, answers: seq<int>, before: seq<byte>, after: seq<byte>, error: int)
    requires ValidFrame(f)
  {
    if ErrorFree(answers) then error == 0 && after == before + EncodeFrame(f)
    else
      && |answers| > 0 && ErrorFree(answers[..|answers| - 1]) && error == answers[|answers| - 1] < 0
      && exists p :: ProperPrefix(p, f) && after == before + p
  }

  /**
   * What a write amounts to. Without a device error the wire gains exactly the frames of
   * the payload. After an error it holds `k` whole frames and a proper prefix of the next
   * one; the result then counts the payload of the whole frames, or is the error code if
   * there is none.
   */
  ghost predicate WriteOutcome(chan: nat, payload: seq<byte>, answers: seq<int>,
                               before: seq<byte>, after: seq<byte>, written: int)
    requires chan < 0x1_0000
  {
    var fs := Chunks(chan, payload);
    if ErrorFree(answers) then written == |payload| && after == before + Encode(fs)
    else
      && |answers| > 0 && ErrorFree(answers[..|answers| - 1])
      && var k := if written < 0 then 0 else written / MAX_PAYLOAD;
         && (written < 0 ==> written == answers[|answers| - 1])
         && (written >= 0 ==> k > 0 && written == k * MAX_PAYLOAD)
         && k < |fs|
         && exists p :: ProperPrefix(p, fs[k]) && Gained(before, after, fs, k, p)
  }

  /** The `k`-th frame of a write, and how much data the frames before it carry. */
  lemma {:induction false} ChunkAt(chan: nat, data: seq<byte>, k: nat)
    requires chan < 0x1_0000 && (k == 0 || k * MAX_PAYLOAD < |data|)
    ensures k < |Chunks(chan, data)|
    ensures Chunks(chan, data)[k] ==
            Frame(chan, if |data| - k * MAX_PAYLOAD > MAX_PAYLOAD
                        then data[k * MAX_PAYLOAD..(k + 1) * MAX_PAYLOAD] else data[k * MAX_PAYLOAD..])
    ensures |Chunks(chan, data)| == k + 1 <==> |data| <= (k + 1) * MAX_PAYLOAD
    decreases k
  {
    if k > 0 {
      var rest := data[MAX_PAYLOAD..];
      ChunkAt(chan, rest, k - 1);
      var fs := Chunks(chan, rest);
      assert Chunks(chan, data) == [Frame(chan, data[..MAX_PAYLOAD])] + fs;
      hide Chunks;
      assert rest[(k - 1) * MAX_PAYLOAD..] == data[k * MAX_PAYLOAD..];
    }
  }

  /** Between two frames of a write: `k` frames are out and no answer was an error. */
  ghost predicate Underway(chan: nat, payload: seq<byte>, k: nat, answers: seq<int>,
                           before: seq<byte>, after: seq<byte>)
    requires chan < 0x1_0000
  {
    && k <= |Chunks(chan, payload)| && ErrorFree(answers)
    && Gained(before, after, Chunks(chan, payload), k, [])
  }

  lemma UnderwayAtStart(chan: nat, payload: seq<byte>, before: seq<byte>)
    requires chan < 0x1_0000
    ensures Underway(chan, payload, 0, [], before, before)
  {
    assert Encode(Chunks(chan, payload)[..0]) == [];
  }

  lemma UnderwayNext(chan: nat, payload: seq<byte>, k: nat, a: seq<int>, b: seq<int>,
                     before: seq<byte>, middle: seq<byte>, after: seq<byte>, error: int)
    requires chan < 0x1_0000 && k < |Chunks(chan, payload)|
    requires Underway(chan, payload, k, a, before, middle)
    requires FrameOutcome(Chunks(chan, payload)[k], b, middle, after, error)
    ensures error >= 0 ==> Underway(chan, payload, k + 1, a + b, before, after)
    ensures error < 0 ==> WriteOutcome(chan, payload, a + b, before, after, if k > 0 then k * MAX_PAYLOAD else error)
  {
    hide Chunks, EncodeFrame, Encode;
    ErrorFreeJoin(a, b);
    var fs := Chunks(chan, payload);
    if error >= 0 {
      GainedNext(before, after, fs, k);
    } else {
      ErrorFreeJoin(a, b[..|b| - 1]);
      assert (a + b)[..|a + b| - 1] == a + b[..|b| - 1];
      var p :| ProperPrefix(p, fs[k]) && after == middle + p;
      assert Gained(before, after, fs, k, p);
    }
  }

  lemma UnderwayAtEnd(chan: nat, payload: seq<byte>, k: nat, answers: seq<int>, before: seq<byte>, after: seq<byte>)
    requires chan < 0x1_0000 && Underway(chan, payload, k, answers, before, after)
    requires k == |Chunks(chan, payload)|
    ensures WriteOutcome(chan, payload, answers, before, after, |payload|)
  {
    var fs := Chunks(chan, payload);
    assert fs[..k] == fs;
  }

  /** `p` is what remains of the payload after `k` full frames. */
  predicate Remaining(payload: seq<byte>, k: nat, p: seq<byte>) {
    k * MAX_PAYLOAD <= |payload| && p == payload[k * MAX_PAYLOAD..] && (k == 0 || p != [])
  }

  lemma RemainingNext(chan: nat, payload: seq<byte>, k: nat, p: seq<byte>, len: nat)
    requires chan < 0x1_0000 && Remaining(payload, k, p)
    requires len == if |p| > MAX_PAYLOAD then MAX_PAYLOAD else |p|
    ensures k < |Chunks(chan, payload)| && Chunks(chan, payload)[k] == Frame(chan, p[..len])
    ensures if len == |p| then |Chunks(chan, payload)| == k + 1 else Remaining(payload, k + 1, p[len..])
  {
    ChunkAt(chan, payload, k);
  }

  class DeviceMuxer {
    var device: Device?
    var buffer: seq<byte>
    var data: map<nat, seq<byte>>
    var readyReadEmitted: map<nat, bool>

    /** Sends one frame while the write lock is held: as many device writes as it takes. */
    method SendFrame(f: Frame) returns (error: int, ghost answers: seq<int>)
      requires device != null && ValidFrame(f)
      modifies device`sent, device`script
      ensures old(device.script) == answers + device.script
      ensures FrameOutcome(f, answers, old(device.sent), device.sent, error)
    {
      ghost var frame := EncodeFrame(f);
      ghost var m := 0;
      var buf := EncodeFrame(f);
      hide EncodeFrame;
      answers := [];
      while |buf| > 0
        invariant 0 <= m <= |frame| && buf == frame[m..]
        invariant device.sent == old(device.sent) + frame[..m]
        invariant old(device.script) == answers + device.script && ErrorFree(answers)
        decreases |device.script|, |buf|
      {
        ghost var asked := device.script;
        var written := device.Write(buf);
        if asked != [] {
          ErrorFreeJoin(answers, [asked[0]]);
          assert written < 0 ==> (answers + [asked[0]])[..|answers|] == answers;
          answers := answers + [asked[0]];
        }
        if written > 0 {
          assert frame[..m] + buf[..written] == frame[..m + written];
          buf := buf[written..];
          m := m + written;
        } else if written < 0 {
          assert ProperPrefix(frame[..m], f);
          assert written in answers;
          return written, answers;
        }
      }
      error := 0;
    }

    /** Sends `payload` on `chan`, frame by frame; other writers may come between frames. */
    method WriteData(chan: nat, payload: seq<byte>) returns (written: int, ghost answers: seq<int>)
      requires device != null && chan < 0x1_0000
      modifies device`sent, device`script
      ensures old(device.script) == answers + device.script
      ensures WriteOutcome(chan, payload, answers, old(device.sent), device.sent, written)
    {
      hide Chunks, Underway, WriteOutcome, FrameOutcome;
      ghost var k := 0;
      var toWrite := |payload|;
      var p := payload;
      answers := [];
      UnderwayAtStart(chan, payload, device.sent);
      while true
        invariant toWrite == |p| && Remaining(payload, k, p)
        invariant old(device.script) == answers + device.script
        invariant Underway(chan, payload, k, answers, old(device.sent), device.sent)
        decreases toWrite
      {
        var len := if toWrite > MAX_PAYLOAD then MAX_PAYLOAD else toWrite;
        RemainingNext(chan, payload, k, p, len);
        ghost var middle := device.sent;
        var failed;
        ghost var more;
        failed, more := SendFrame(Frame(chan, p[..len]));
        UnderwayNext(chan, payload, k, answers, more, old(device.sent), middle, device.sent, failed);
        answers := answers + more;
        if failed < 0 {
          if toWrite < |payload| {
            return |payload| - toWrite, answers;
          } else {
            return failed, answers;
          }
        }
        toWrite := toWrite - len;
        p := p[len..];
        k := k + 1;
        if toWrite <= 0 {
          break;
        }
      }
      UnderwayAtEnd(chan, payload, k, answers, old(device.sent), device.sent);
      written := |payload| - toWrite;
    }

    /** Takes the next chunk from the device and appends it to the buffer. */
    method Fetch(ghost seen: seq<byte>, ghost done: seq<Frame>, ghost total: seq<byte>)
      returns (ghost seen': seq<byte>)
      requires device != null && CompletesFrames(buffer, device.incoming) && Reading(seen, done, buffer)
      requires seen + Concat(device.incoming) == total
      modifies this`buffer, device`incoming
      ensures CompletesFrames(buffer, device.incoming) && Reading(seen', done, buffer)
      ensures seen' + Concat(device.incoming) == total
      ensures old(buffer) <= buffer
      ensures old(device.incoming) == [] ==> buffer == old(buffer) && device.incoming == []
      ensures old(device.incoming) != [] ==> |device.incoming| < |old(device.incoming)|
    {
      hide Reading, CompletesFrames, Concat;
      CompletesAfterChunk(buffer, device.incoming);
      ghost var before := device.incoming;
      var bytes := device.ReadAll();
      ReadingMore(seen, done, buffer, bytes);
      SeenStep(seen, bytes, before);
      assert buffer + [] == buffer;
      buffer := buffer + bytes;
      seen' := seen + bytes;
    }

    /** What holds between two frames: `done` came out of `seen`, nothing else happened. */
    ghost predicate Progress(seen: seq<byte>, done: seq<Frame>,
                             data0: map<nat, seq<byte>>, emitted0: map<nat, bool>)
      reads this
    {
      && Reading(seen, done, buffer)
      && data == Deliver(data0, done)
      && readyReadEmitted == Emitted(done, emitted0)
    }

    /** Moves the frame at the front of the buffer to its channel. */
    method TakeFrame(chan: nat, dataSize: nat, ghost seen: seq<byte>, ghost done: seq<Frame>,
                     ghost data0: map<nat, seq<byte>>, ghost emitted0: map<nat, bool>)
      requires Progress(seen, done, data0, emitted0) && HasFrame(buffer)
      requires chan == ChannelAt(buffer) && dataSize == SizeAt(buffer)
      modifies this`buffer, this`data, this`readyReadEmitted
      ensures Progress(seen, done + [FirstFrame(old(buffer))], data0, emitted0)
      ensures buffer == AfterFrame(old(buffer))
    {
      hide Reading, Deliver, Emitted;
      ReadingFrame(seen, done, buffer);
      DeliverOne(data0, done, FirstFrame(buffer));
      EmittedOne(done, FirstFrame(buffer), emitted0);
      data := data[chan := Get(data, chan) + buffer[HEADER_SIZE..HEADER_SIZE + dataSize]];
      buffer := buffer[HEADER_SIZE + dataSize..];
      readyReadEmitted := readyReadEmitted[chan := true];
    }

    /** The body of the receiving loop: waits for the rest of a frame, moves it, looks for more data. */
    method NextFrame(ghost seen: seq<byte>, ghost done: seq<Frame>, ghost total: seq<byte>,
                     ghost data0: map<nat, seq<byte>>, ghost emitted0: map<nat, bool>)
      returns (ghost seen': seq<byte>, ghost done': seq<Frame>)
      requires device != null && |buffer| >= HEADER_SIZE && CompletesFrames(buffer, device.incoming)
      requires Progress(seen, done, data0, emitted0) && seen + Concat(device.incoming) == total
      modifies this`buffer, this`data, this`readyReadEmitted, device`incoming
      ensures Progress(seen', done', data0, emitted0) && seen' + Concat(device.incoming) == total
      ensures CompletesFrames(buffer, device.incoming)
      ensures |device.incoming| < |old(device.incoming)|
              || (|device.incoming| == |old(device.incoming)| && |buffer| < |old(buffer)|)
    {
      hide Parse, Reading, CompletesFrames, Deliver, Emitted, AfterFrame, FirstFrame, Concat, ChannelAt, SizeAt, Valid;
      var chan := ChannelAt(buffer);
      var dataSize := SizeAt(buffer);
      seen' := AwaitPayload(chan, dataSize, seen, done, total);
      CompletesAfterFrame(buffer, device.incoming);
      ghost var f := FirstFrame(buffer);
      AfterFrameIsShorter(buffer);
      TakeFrame(chan, dataSize, seen', done, data0, emitted0);
      done' := done + [f];
      seen' := Fetch(seen', done', total);
    }

    /** The receiving loop. */
    method Drain() returns (ghost seen: seq<byte>)
      requires device != null && CompletesFrames(buffer, device.incoming)
      modifies this`buffer, this`data, this`readyReadEmitted, device`incoming
      ensures seen + Concat(device.incoming) == old(buffer) + Concat(old(device.incoming))
      ensures old(device.incoming) != [] ==> |device.incoming| < |old(device.incoming)|
      ensures buffer == Parse(seen).rest && |buffer| < HEADER_SIZE
      ensures data == Deliver(old(data), Parse(seen).frames)
      ensures readyReadEmitted == Emitted(Parse(seen).frames, old(readyReadEmitted))
    {
      hide Parse, Reading, CompletesFrames, Deliver, Emitted, AfterFrame, FirstFrame, Concat, ChannelAt, SizeAt, Valid;
      ghost var done: seq<Frame> := [];
      ghost var total := buffer + Concat(device.incoming);
      StartsEmpty(data, readyReadEmitted);
      ReadingAtStart(buffer);
      seen := Fetch(buffer, done, total);
      while |buffer| >= HEADER_SIZE
        invariant Progress(seen, done, old(data), old(readyReadEmitted))
        invariant CompletesFrames(buffer, device.incoming) && seen + Concat(device.incoming) == total
        invariant old(device.incoming) != [] ==> |device.incoming| < |old(device.incoming)|
        decreases |device.incoming|, |buffer|
      {
        seen, done := NextFrame(seen, done, total, old(data), old(readyReadEmitted));
      }
      ReadingDone(seen, done, buffer);
    }

    /**
     * Handles arriving data: whatever the device hands out while this runs is split into
     * frames exactly as if it had come in one piece; each frame's payload is appended to
     * its channel, and fewer bytes than a header stay behind.
     */
    method HandleReadyRead() returns (ghost seen: seq<byte>)
      requires device != null ==> CompletesFrames(buffer, device.incoming)
      modifies this`buffer, this`data, this`readyReadEmitted
      modifies if device == null then {} else {device}
      ensures device == null ==>
        buffer == old(buffer) && data == old(data) && readyReadEmitted == old(readyReadEmitted)
      ensures device != null ==>
        && device.sent == old(device.sent) && device.script == old(device.script)
        && seen + Concat(device.incoming) == old(buffer) + Concat(old(device.incoming))
        && (old(device.incoming) != [] ==> |device.incoming| < |old(device.incoming)|)
        && buffer == Parse(seen).rest && |buffer| < HEADER_SIZE
        && data == Deliver(old(data), Parse(seen).frames)
        && readyReadEmitted == Emitted(Parse(seen).frames, old(readyReadEmitted))
    {
      hide Parse, CompletesFrames, Deliver, Emitted, Concat;
      if device == null {
        return [];
      }
      seen := Drain();
    }

    /** Waits until the frame at the front of the buffer is complete. */
    method AwaitPayload(chan: nat, dataSize: nat, ghost seen: seq<byte>, ghost done: seq<Frame>,
                        ghost total: seq<byte>) returns (ghost seen': seq<byte>)
      requires device != null && CompletesFrames(buffer, device.incoming) && Reading(seen, done, buffer)
      requires |buffer| >= HEADER_SIZE && chan == ChannelAt(buffer) && dataSize == SizeAt(buffer)
      requires seen + Concat(device.incoming) == total
      modifies this`buffer, device`incoming
      ensures HasFrame(buffer) && chan == ChannelAt(buffer) && dataSize == SizeAt(buffer)
      ensures CompletesFrames(buffer, device.incoming) && Reading(seen', done, buffer)
      ensures seen' + Concat(device.incoming) == total
      ensures |device.incoming| < |old(device.incoming)| ||
              (buffer == old(buffer) && device.incoming == old(device.incoming))
    {
      hide Reading, CompletesFrames, Concat;
      seen' := seen;
      while |buffer| < HEADER_SIZE + dataSize
        invariant |buffer| >= HEADER_SIZE && ChannelAt(buffer) == chan && SizeAt(buffer) == dataSize
        invariant Reading(seen', done, buffer) && CompletesFrames(buffer, device.incoming)
        invariant seen' + Concat(device.incoming) == total
        invariant |device.incoming| < |old(device.incoming)| ||
                  (buffer == old(buffer) && device.incoming == old(device.incoming))
        decreases |device.incoming|
      {
        CompletesAfterChunk(buffer, device.incoming);
        seen' := Fetch(seen', done, total);
      }
    }

    /** Hands out and removes at most `maxSize` bytes of a channel. */
    method ReadData(chan: nat, maxSize: nat) returns (out: seq<byte>)
      modifies this`data
      ensures |out| == if |Get(old(data), chan)| < maxSize then |Get(old(data), chan)| else maxSize
      ensures Get(old(data), chan) == out + Get(data, chan)
      ensures forall c: nat :: c != chan ==> Get(data, c) == Get(old(data), c)
    {
      var buf := Get(data, chan);
      var size := if |buf| < maxSize then |buf| else maxSize;
      out := buf[..size];
      data := data[chan := buf[size..]];
    }

    method ReadAll(chan: nat) returns (out: seq<byte>)
      modifies this`data
      ensures out == Get(old(data), chan) && Get(data, chan) == []
      ensures forall c: nat :: c != chan ==> Get(data, c) == Get(old(data), c)
    {
      out := Get(data, chan);
      data := data[chan := []];
    }
  }
}

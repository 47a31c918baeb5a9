/**
 * The framing of the channel multiplexer: a 16-bit channel, a 16-bit length and the
 * payload, in the little-endian order of the machine.
 */
module MuxFrames {
  import opened Bytes
  import opened Sequences

  const HEADER_SIZE := 4
  const MAX_PAYLOAD := 0xFFFF

  datatype Frame = Frame(chan: nat, payload: seq<byte>)

  predicate ValidFrame(f: Frame) {
    f.chan < 0x1_0000 && |f.payload| <= MAX_PAYLOAD
  }

  ghost predicate Valid(fs: seq<Frame>) {
    forall f :: f in fs ==> ValidFrame(f)
  }

  function Header(chan: nat, len: nat): (h: seq<byte>)
    requires chan < 0x1_0000 && len < 0x1_0000
    ensures |h| == HEADER_SIZE
  {
    [chan % 0x100, chan / 0x100, len % 0x100, len / 0x100]
  }

  function EncodeFrame(f: Frame): seq<byte>
    requires ValidFrame(f)
  {
    Header(f.chan, |f.payload|) + f.payload
  }

  function Encode(fs: seq<Frame>): seq<byte>
    requires Valid(fs)
  {
    if fs == [] then [] else EncodeFrame(fs[0]) + Encode(fs[1..])
  }

  /** The frames of one write: at most 65535 bytes each, and one even for no data at all. */
  function Chunks(chan: nat, data: seq<byte>): (fs: seq<Frame>)
    requires chan < 0x1_0000
    ensures Valid(fs) && fs != []
  {
    if |data| <= MAX_PAYLOAD then [Frame(chan, data)]
    else [Frame(chan, data[..MAX_PAYLOAD])] + Chunks(chan, data[MAX_PAYLOAD..])
  }

  /** What a channel receives from a sequence of frames. */
  function Payloads(chan: nat, fs: seq<Frame>): seq<byte> {
    if fs == [] then []
    else (if fs[0].chan == chan then fs[0].payload else []) + Payloads(chan, fs[1..])
  }

  function Concat(parts: seq<seq<byte>>): seq<byte> {
    if parts == [] then [] else parts[0] + Concat(parts[1..])
  }

  function ChannelAt(b: seq<byte>): (c: nat)
    requires |b| >= HEADER_SIZE
    ensures c < 0x1_0000
  {
    b[0] as int + 0x100 * b[1] as int
  }

  function SizeAt(b: seq<byte>): (n: nat)
    requires |b| >= HEADER_SIZE
    ensures n < 0x1_0000
  {
    b[2] as int + 0x100 * b[3] as int
  }

  predicate HasFrame(b: seq<byte>) {
    |b| >= HEADER_SIZE && |b| >= HEADER_SIZE + SizeAt(b)
  }

  function FirstFrame(b: seq<byte>): (f: Frame)
    requires HasFrame(b)
    ensures ValidFrame(f)
  {
    Frame(ChannelAt(b), b[HEADER_SIZE..HEADER_SIZE + SizeAt(b)])
  }

  function AfterFrame(b: seq<byte>): seq<byte>
    requires HasFrame(b)
  {
    b[HEADER_SIZE + SizeAt(b)..]
  }

  datatype Parsed = Parsed(frames: seq<Frame>, rest: seq<byte>)

  /** Splits off all whole frames at the front of a byte sequence. */
  function Parse(b: seq<byte>): (p: Parsed)
    ensures Valid(p.frames) && !HasFrame(p.rest)
    decreases |b|
  {
    if !HasFrame(b) then Parsed([], b)
    else
      var p := Parse(AfterFrame(b));
      Parsed([FirstFrame(b)] + p.frames, p.rest)
  }

  lemma FrameRoundTrip(f: Frame, t: seq<byte>)
    requires ValidFrame(f)
    ensures HasFrame(EncodeFrame(f) + t)
    ensures FirstFrame(EncodeFrame(f) + t) == f && AfterFrame(EncodeFrame(f) + t) == t
  {
    var b := EncodeFrame(f) + t;
    assert b == Header(f.chan, |f.payload|) + (f.payload + t);
    assert SizeAt(b) == |f.payload| && ChannelAt(b) == f.chan;
  }

  lemma FirstFrameEncodes(b: seq<byte>)
    requires HasFrame(b)
    ensures EncodeFrame(FirstFrame(b)) + AfterFrame(b) == b
  {
    assert b == b[..HEADER_SIZE] + b[HEADER_SIZE..HEADER_SIZE + SizeAt(b)] + AfterFrame(b);
  }

  lemma EncodeFirst(f: Frame, fs: seq<Frame>)
    requires ValidFrame(f) && Valid(fs)
    ensures Valid([f] + fs) && Encode([f] + fs) == EncodeFrame(f) + Encode(fs)
  {
    assert ([f] + fs)[1..] == fs;
  }

  lemma ParseFirst(f: Frame, t: seq<byte>)
    requires ValidFrame(f)
    ensures Parse(EncodeFrame(f) + t) == Parsed([f] + Parse(t).frames, Parse(t).rest)
  {
    FrameRoundTrip(f, t);
    hide EncodeFrame, FirstFrame, AfterFrame;
  }

  /** Parsing undoes encoding, whatever incomplete frame follows. */
  lemma {:induction false} ParseEncode(fs: seq<Frame>, t: seq<byte>)
    requires Valid(fs)
    ensures Parse(Encode(fs) + t) == Parsed(fs + Parse(t).frames, Parse(t).rest)
  {
    hide Parse, EncodeFrame;
    if fs == [] {
      assert Encode(fs) + t == t;
      assert fs + Parse(t).frames == Parse(t).frames;
    } else {
      var f, more := fs[0], fs[1..];
      assert fs == [f] + more;
      EncodeFirst(f, more);
      hide Encode;
      Associate(EncodeFrame(f), Encode(more), t);
      ParseEncode(more, t);
      ParseFirst(f, Encode(more) + t);
      Associate([f], more, Parse(t).frames);
    }
  }

  /** Nothing is lost: the frames and the rest are the bytes. */
  lemma {:induction false} ParseSound(b: seq<byte>)
    ensures Encode(Parse(b).frames) + Parse(b).rest == b
    decreases |b|
  {
    hide EncodeFrame, FirstFrame, Encode;
    if HasFrame(b) {
      var f, t := FirstFrame(b), AfterFrame(b);
      ParseSound(t);
      FirstFrameEncodes(b);
      ParseFirst(f, t);
      EncodeFirst(f, Parse(t).frames);
      Associate(EncodeFrame(f), Encode(Parse(t).frames), Parse(t).rest);
    } else {
      EncodeNothing(b);
    }
  }

  lemma EncodeNothing(b: seq<byte>)
    ensures Encode([]) + b == b
  {
  }

  /** How the stream is cut into chunks does not matter. */
  lemma ParseAppend(a: seq<byte>, b: seq<byte>)
    ensures Parse(a + b).frames == Parse(a).frames + Parse(Parse(a).rest + b).frames
    ensures Parse(a + b).rest == Parse(Parse(a).rest + b).rest
  {
    var p := Parse(a);
    ParseSound(a);
    assert a + b == Encode(p.frames) + (p.rest + b);
    ParseEncode(p.frames, p.rest + b);
  }

  lemma {:induction false} EncodeAppend(a: seq<Frame>, b: seq<Frame>)
    requires Valid(a) && Valid(b)
    ensures Valid(a + b) && Encode(a + b) == Encode(a) + Encode(b)
  {
    if a == [] {
      assert a + b == b;
    } else {
      EncodeAppend(a[1..], b);
      assert (a + b)[1..] == a[1..] + b;
    }
  }

  lemma PayloadsFirst(chan: nat, f: Frame, fs: seq<Frame>)
    ensures Payloads(chan, [f] + fs) == (if f.chan == chan then f.payload else []) + Payloads(chan, fs)
  {
    assert ([f] + fs)[1..] == fs;
  }

  lemma {:induction false} PayloadsAppend(chan: nat, a: seq<Frame>, b: seq<Frame>)
    ensures Payloads(chan, a + b) == Payloads(chan, a) + Payloads(chan, b)
  {
    if a == [] {
      assert a + b == b;
    } else {
      var f, more := a[0], a[1..];
      assert a == [f] + more;
      PayloadsFirst(chan, f, more);
      PayloadsFirst(chan, f, more + b);
      PayloadsAppend(chan, more, b);
      hide Payloads;
      Associate([f], more, b);
      Associate(if f.chan == chan then f.payload else [], Payloads(chan, more), Payloads(chan, b));
    }
  }

  lemma {:induction false} ConcatAppend(a: seq<seq<byte>>, x: seq<byte>)
    ensures Concat(a + [x]) == Concat(a) + x
  {
    if a == [] {
      assert [x][1..] == [] && a + [x] == [x];
    } else {
      ConcatAppend(a[1..], x);
      assert (a + [x])[1..] == a[1..] + [x];
    }
  }

  /** On the wire: the channel, the length, low byte first, and the payload. */
  lemma FrameBytes(f: Frame)
    requires ValidFrame(f)
    ensures var e := EncodeFrame(f);
            && |e| == 4 + |f.payload| && e[4..] == f.payload
            && e[0] as int + 0x100 * e[1] as int == f.chan
            && e[2] as int + 0x100 * e[3] as int == |f.payload|
  {
  }

  /** All frames of a write but the last carry 65535 bytes, and the last carries something if there is any data. */
  lemma {:induction false} ChunksAreFull(chan: nat, data: seq<byte>)
    requires chan < 0x1_0000
    ensures var fs := Chunks(chan, data);
            && (forall k :: 0 <= k < |fs| - 1 ==> |fs[k].payload| == 65535)
            && |fs[|fs| - 1].payload| == |data| - 65535 * (|fs| - 1) <= 65535
            && (data != [] ==> fs[|fs| - 1].payload != [])
    decreases |data|
  {
    if |data| > MAX_PAYLOAD {
      ChunksAreFull(chan, data[MAX_PAYLOAD..]);
    }
  }

  /** The frames of a write carry its data, in order, on its channel and on no other. */
  lemma {:induction false} ChunksCarryData(chan: nat, data: seq<byte>, c: nat)
    requires chan < 0x1_0000
    ensures Payloads(c, Chunks(chan, data)) == if c == chan then data else []
    ensures forall f :: f in Chunks(chan, data) ==> f.chan == chan
    decreases |data|
  {
    var fs := Chunks(chan, data);
    if |data| <= MAX_PAYLOAD {
      assert fs[1..] == [];
    } else {
      ChunksCarryData(chan, data[MAX_PAYLOAD..], c);
      assert fs[1..] == Chunks(chan, data[MAX_PAYLOAD..]);
      assert data == data[..MAX_PAYLOAD] + data[MAX_PAYLOAD..];
    }
  }
}

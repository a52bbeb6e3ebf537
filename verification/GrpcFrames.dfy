/** Length-prefixed gRPC messages: framing one message and splitting a response body into frames. */
module GrpcFrames {
  import opened Wrappers
  import opened ProtoWire

  const PREFIX := 5
  const LENGTH_LIMIT := 0x1_0000_0000

  datatype FrameError = LengthOverflow

  /** A frame: the flag byte, whose high bit marks trailers, and the payload. */
  datatype Frame = Frame(flags: Byte, payload: Bytes)

  function BigEndian(n: nat): (bytes: Bytes)
    requires n < LENGTH_LIMIT
    ensures |bytes| == 4
    ensures FromBigEndian(bytes) == n
  {
    [n / 256 / 256 / 256, n / 256 / 256 % 256, n / 256 % 256, n % 256]
  }

  function FromBigEndian(bytes: Bytes): (n: nat)
    requires |bytes| == 4
    ensures n < LENGTH_LIMIT
  {
    var a: nat, b: nat, c: nat, d: nat := bytes[0], bytes[1], bytes[2], bytes[3];
    ((a * 256 + b) * 256 + c) * 256 + d
  }

  /** Python refuses to write a length that does not fit four bytes. */
  function GrpcFrame(message: Bytes): Result<Bytes, FrameError> {
    if |message| >= LENGTH_LIMIT then Err(LengthOverflow)
    else Ok([0] + BigEndian(|message|) + message)
  }

  // ---- Splitting ------------------------------------------------------------------------------------

  /** A body holds a whole frame when its prefix and the payload it announces are both there. */
  predicate HoldsFrame(body: Bytes) {
    PREFIX <= |body| && PREFIX + FromBigEndian(body[1..5]) <= |body|
  }

  function FirstFrame(body: Bytes): Frame
    requires HoldsFrame(body)
  {
    Frame(body[0], body[PREFIX..PREFIX + FromBigEndian(body[1..5])])
  }

  function AfterFirst(body: Bytes): (rest: Bytes)
    requires HoldsFrame(body)
    ensures |rest| < |body|
  {
    body[PREFIX + FromBigEndian(body[1..5])..]
  }

  /** The frames a body holds, up to the first incomplete one. */
  function FramesIn(body: Bytes): seq<Frame>
    decreases |body|
  {
    if HoldsFrame(body) then [FirstFrame(body)] + FramesIn(AfterFirst(body)) else []
  }

  /** The payloads, joined in order, of the frames with flags from `least` to `most`. */
  function Payloads(frames: seq<Frame>, least: Byte, most: Byte): Bytes
    decreases |frames|
  {
    if frames == [] then []
    else Portion(frames[0], least, most) + Payloads(frames[1..], least, most)
  }

  function Portion(frame: Frame, least: Byte, most: Byte): Bytes {
    if least <= frame.flags <= most then frame.payload else []
  }

  method SplitGrpcFrames(data: Bytes) returns (dataOut: Bytes, trailerOut: Bytes)
    ensures dataOut == Payloads(FramesIn(data), 0, 127)
    ensures trailerOut == Payloads(FramesIn(data), 128, 255)
    ensures forall message | GrpcFrame(message) == Ok(data) :: dataOut == message && trailerOut == []
  {
    hide FramesIn, Payloads, FromBigEndian;
    dataOut, trailerOut := [], [];
    var pos: nat := 0;
    ghost var split: seq<Frame>, rest := [], data;
    assert [] + FramesIn(data) == FramesIn(data);
    NoPayloads();
    while pos + 5 <= |data|
      invariant pos <= |data| && rest == data[pos..]
      invariant split + FramesIn(rest) == FramesIn(data)
      invariant dataOut == Payloads(split, 0, 127) && trailerOut == Payloads(split, 128, 255)
    {
      var flags: nat := data[pos];
      var length := FromBigEndian(data[pos + 1..pos + 5]);
      assert rest[1..5] == data[pos + 1..pos + 5];
      pos := pos + 5;
      var end := pos + length;
      if end > |data| {
        break;
      }
      ghost var frame := FirstFrame(rest);
      assert frame.payload == data[pos..end] && AfterFirst(rest) == data[end..];
      Peel(rest);
      assert split + ([frame] + FramesIn(data[end..])) == (split + [frame]) + FramesIn(data[end..]);
      PayloadsOfAppend(split, frame, 0, 127);
      PayloadsOfAppend(split, frame, 128, 255);
      if flags >= 128 {
        trailerOut := trailerOut + data[pos..end];
      } else {
        dataOut := dataOut + data[pos..end];
      }
      split, rest := split + [frame], data[end..];
      pos := end;
    }
    NoneLeft(rest);
    assert split + [] == split;
    forall message | GrpcFrame(message) == Ok(data) ensures dataOut == message && trailerOut == [] {
      OwnFrame(message);
    }
  }

  lemma NoPayloads()
    ensures Payloads([], 0, 127) == Payloads([], 128, 255) == []
  {
  }

  lemma Peel(body: Bytes)
    requires HoldsFrame(body)
    ensures FramesIn(body) == [FirstFrame(body)] + FramesIn(AfterFirst(body))
  {
  }

  lemma NoneLeft(body: Bytes)
    requires !HoldsFrame(body)
    ensures FramesIn(body) == []
  {
  }

  lemma {:induction false} PayloadsOfAppend(frames: seq<Frame>, frame: Frame, least: Byte, most: Byte)
    ensures Payloads(frames + [frame], least, most) == Payloads(frames, least, most) + Portion(frame, least, most)
  {
    PayloadsConcatenate(frames, [frame], least, most);
    PayloadsOfOne(frame, least, most);
  }

  /** Payloads are joined in the order of the frames. */
  lemma {:induction false} PayloadsConcatenate(a: seq<Frame>, b: seq<Frame>, least: Byte, most: Byte)
    ensures Payloads(a + b, least, most) == Payloads(a, least, most) + Payloads(b, least, most)
    decreases |a|
  {
    hide Portion;
    if a == [] {
      assert a + b == b;
    } else {
      assert (a + b)[1..] == a[1..] + b;
      PayloadsConcatenate(a[1..], b, least, most);
    }
  }

  /** One frame gives its payload if its flag is in the range, and nothing otherwise. */
  lemma PayloadsOfOne(frame: Frame, least: Byte, most: Byte)
    ensures Payloads([frame], least, most) == if least <= frame.flags <= most then frame.payload else []
  {
    assert [frame][1..] == [];
  }

  // ---- Streams of frames ------------------------------------------------------------------------------

  predicate Sendable(frames: seq<Frame>) {
    forall f | f in frames :: |f.payload| < LENGTH_LIMIT
  }

  function Encoded(frame: Frame): Bytes
    requires |frame.payload| < LENGTH_LIMIT
  {
    [frame.flags] + BigEndian(|frame.payload|) + frame.payload
  }

  function Stream(frames: seq<Frame>): Bytes
    requires Sendable(frames)
    decreases |frames|
  {
    if frames == [] then [] else Encoded(frames[0]) + Stream(frames[1..])
  }

  /** The bytes of a frame: its flag, the length of its payload with the greatest byte first, and the payload. */
  lemma FrameBytes(frame: Frame)
    requires Sendable([frame])
    ensures var bytes := Stream([frame]);
            && |bytes| == 5 + |frame.payload| && bytes[0] == frame.flags && bytes[5..] == frame.payload
            && var (a: nat, b: nat, c: nat, d: nat) := (bytes[1], bytes[2], bytes[3], bytes[4]);
               16777216 * a + 65536 * b + 256 * c + d == |frame.payload|
  {
    hide BigEndian, FromBigEndian;
    assert frame in [frame] && [frame][1..] == [];
    var length := BigEndian(|frame.payload|);
    BigEndianSum(length);
    assert Stream([frame]) == [frame.flags] + length + frame.payload;
  }

  lemma BigEndianSum(bytes: Bytes)
    requires |bytes| == 4
    ensures var (a: nat, b: nat, c: nat, d: nat) := (bytes[0], bytes[1], bytes[2], bytes[3]);
            16777216 * a + 65536 * b + 256 * c + d == FromBigEndian(bytes)
  {
  }

  /** `GrpcFrame` writes the frame with a zero flag, exactly when the length fits four bytes. */
  lemma FramingIsEncoding(message: Bytes)
    ensures GrpcFrame(message).Ok? <==> |message| <= 0xFFFF_FFFF
    ensures GrpcFrame(message).Ok? ==> Sendable([Frame(0, message)]) && GrpcFrame(message).value == Stream([Frame(0, message)])
  {
    var f := Frame(0, message);
    assert f in [f];
    if |message| < LENGTH_LIMIT {
      assert [f][1..] == [];
      assert Encoded(f) + [] == Encoded(f);
    }
  }

  /** What was framed as one message is split into the message and no trailers. */
  lemma OwnFrame(message: Bytes)
    requires GrpcFrame(message).Ok?
    ensures Payloads(FramesIn(GrpcFrame(message).value), 0, 127) == message
    ensures Payloads(FramesIn(GrpcFrame(message).value), 128, 255) == []
  {
    hide GrpcFrame, Stream, FramesIn, HoldsFrame, Sendable, Payloads;
    var f := Frame(0, message);
    FramingIsEncoding(message);
    NoFrameInNothing();
    FramesAreRecovered([f], []);
    assert Stream([f]) + [] == Stream([f]);
    PayloadsOfOne(f, 0, 127);
    PayloadsOfOne(f, 128, 255);
  }

  /** Of any stream, the data are the payloads with flags up to 127 and the trailers those with greater flags, each
      joined in the order sent; what follows the last whole frame adds nothing. */
  lemma StreamsAreSplitByFlag(frames: seq<Frame>, frame: Frame, rest: Bytes)
    requires Sendable(frames) && Sendable([frame]) && !HoldsFrame(rest)
    ensures FramesIn(rest) == [] && Sendable(frames + [frame])
    ensures var before, after := FramesIn(Stream(frames) + rest), FramesIn(Stream(frames + [frame]) + rest);
            && Payloads(after, 0, 127) == Payloads(before, 0, 127) + (if frame.flags <= 127 then frame.payload else [])
            && Payloads(after, 128, 255) == Payloads(before, 128, 255) + (if frame.flags > 127 then frame.payload else [])
  {
    hide Stream, HoldsFrame, FramesIn, Payloads, Portion;
    NoneLeft(rest);
    FramesAreRecovered(frames, rest);
    FramesAreRecovered(frames + [frame], rest);
    PayloadsConcatenate(frames, [frame], 0, 127);
    PayloadsConcatenate(frames, [frame], 128, 255);
    PayloadsOfOne(frame, 0, 127);
    PayloadsOfOne(frame, 128, 255);
  }

  lemma FirstOfStream(frame: Frame, rest: Bytes)
    requires |frame.payload| < LENGTH_LIMIT
    ensures HoldsFrame(Encoded(frame) + rest)
    ensures FirstFrame(Encoded(frame) + rest) == frame && AfterFirst(Encoded(frame) + rest) == rest
  {
    hide FromBigEndian, BigEndian;
    var body := Encoded(frame) + rest;
    assert body[1..5] == BigEndian(|frame.payload|);
    assert body[5..5 + |frame.payload|] == frame.payload;
  }

  /** Whatever frames were sent, they are the ones found, if what follows them is not a whole frame. */
  lemma {:induction false} FramesAreRecovered(frames: seq<Frame>, rest: Bytes)
    requires Sendable(frames) && !HoldsFrame(rest)
    ensures FramesIn(Stream(frames) + rest) == frames
    decreases |frames|
  {
    hide HoldsFrame, Encoded;
    if frames == [] {
      assert Stream(frames) + rest == rest;
      NoneLeft(rest);
    } else {
      var tail := Stream(frames[1..]) + rest;
      assert Stream(frames) + rest == Encoded(frames[0]) + tail;
      FirstOfStream(frames[0], tail);
      Peel(Encoded(frames[0]) + tail);
      FramesAreRecovered(frames[1..], rest);
      assert frames == [frames[0]] + frames[1..];
    }
  }

  /** Every body is a stream of whole frames followed by something that is not a whole frame. */
  lemma {:induction false} EveryBodyIsAStream(body: Bytes) returns (rest: Bytes)
    ensures Sendable(FramesIn(body)) && !HoldsFrame(rest)
    ensures body == Stream(FramesIn(body)) + rest
    decreases |body|
  {
    hide HoldsFrame, FirstFrame, AfterFirst, Encoded, FramesIn, Stream, Sendable;
    if HoldsFrame(body) {
      Peel(body);
      rest := EveryBodyIsAStream(AfterFirst(body));
      EncodedFirst(body);
      StreamOfMore(FirstFrame(body), FramesIn(AfterFirst(body)));
      var first, more := Encoded(FirstFrame(body)), Stream(FramesIn(AfterFirst(body)));
      assert first + (more + rest) == (first + more) + rest;
    } else {
      rest := body;
      NoneLeft(body);
      NothingSent();
      assert [] + body == body;
    }
  }

  lemma StreamOfMore(frame: Frame, frames: seq<Frame>)
    requires |frame.payload| < LENGTH_LIMIT && Sendable(frames)
    ensures Sendable([frame] + frames) && Stream([frame] + frames) == Encoded(frame) + Stream(frames)
  {
    hide Encoded;
    assert ([frame] + frames)[1..] == frames;
  }

  lemma NothingSent()
    ensures Sendable([]) && Stream([]) == []
  {
  }

  lemma EncodedFirst(body: Bytes)
    requires HoldsFrame(body)
    ensures |FirstFrame(body).payload| < LENGTH_LIMIT
    ensures body == Encoded(FirstFrame(body)) + AfterFirst(body)
  {
    hide FromBigEndian, BigEndian;
    var f := FirstFrame(body);
    LengthBytes(body[1..5]);
    assert |f.payload| == FromBigEndian(body[1..5]);
    assert body == [body[0]] + body[1..5] + f.payload + AfterFirst(body);
  }

  lemma LengthBytes(bytes: Bytes)
    requires |bytes| == 4
    ensures FromBigEndian(bytes) < LENGTH_LIMIT && BigEndian(FromBigEndian(bytes)) == bytes
  {
    var n, a: nat, b: nat, c: nat, d: nat := FromBigEndian(bytes), bytes[0], bytes[1], bytes[2], bytes[3];
    assert n % 256 == d && n / 256 == (a * 256 + b) * 256 + c;
    assert n / 256 % 256 == c && n / 256 / 256 == a * 256 + b;
  }

  /** The first `whole` frames fit before the cut, and the next one does not. */
  predicate FitBefore(frames: seq<Frame>, cut: nat, whole: nat)
    requires Sendable(frames)
  {
    && whole <= |frames| && |Stream(frames[..whole])| <= cut
    && (whole < |frames| ==> cut < |Stream(frames[..whole + 1])|)
  }

  lemma WholeFrames(frames: seq<Frame>, cut: nat) returns (whole: nat)
    requires Sendable(frames)
    ensures FitBefore(frames, cut, whole)
  {
    whole := |frames|;
    assert frames[..|frames|] == frames && frames[..0] == [];
    while |Stream(frames[..whole])| > cut
      invariant whole <= |frames|
      invariant whole < |frames| ==> cut < |Stream(frames[..whole + 1])|
      decreases whole
    {
      whole := whole - 1;
    }
  }

  /** Cutting a stream short loses the frame it cuts into and those after it, and nothing else. */
  lemma TruncationKeepsWholeFrames(frames: seq<Frame>, cut: nat) returns (whole: nat)
    requires Sendable(frames) && cut <= |Stream(frames)|
    ensures FitBefore(frames, cut, whole)
    ensures FramesIn(Stream(frames)[..cut]) == frames[..whole]
  {
    hide Stream, FitBefore, FramesIn;
    whole := WholeFrames(frames, cut);
    CutBehind(frames, cut, whole);
  }

  lemma CutBehind(frames: seq<Frame>, cut: nat, whole: nat)
    requires Sendable(frames) && cut <= |Stream(frames)| && FitBefore(frames, cut, whole)
    ensures FramesIn(Stream(frames)[..cut]) == frames[..whole]
  {
    hide HoldsFrame, Stream, FramesIn;
    var head, tail := frames[..whole], frames[whole..];
    assert frames == head + tail;
    StreamsConcatenate(head, tail);
    CutJoined(Stream(head), Stream(tail), cut);
    if tail != [] {
      assert frames[..whole + 1] == head + [tail[0]];
      StreamsConcatenate(head, [tail[0]]);
    }
    NoWholeFrame(tail, cut - |Stream(head)|);
    FramesAreRecovered(head, Stream(tail)[..cut - |Stream(head)|]);
  }

  lemma CutJoined(a: Bytes, b: Bytes, cut: nat)
    requires |a| <= cut <= |a| + |b|
    ensures (a + b)[..cut] == a + b[..cut - |a|]
  {
  }

  /** What a cut inside the first frame leaves of a stream holds no frame. */
  lemma NoWholeFrame(frames: seq<Frame>, cut: nat)
    requires Sendable(frames) && cut <= |Stream(frames)|
    requires frames != [] ==> cut < |Stream([frames[0]])|
    ensures !HoldsFrame(Stream(frames)[..cut])
  {
    hide HoldsFrame, Encoded;
    if frames == [] {
      NoFrameInNothing();
    } else {
      assert [frames[0]][1..] == [];
      assert Stream(frames)[..cut] == Encoded(frames[0])[..cut];
      CutFrame(frames[0], cut);
    }
  }

  lemma NoFrameInNothing()
    ensures !HoldsFrame([])
  {
  }

  lemma CutFrame(frame: Frame, cut: nat)
    requires |frame.payload| < LENGTH_LIMIT && cut < |Encoded(frame)|
    ensures !HoldsFrame(Encoded(frame)[..cut])
  {
    hide FromBigEndian, BigEndian;
    var whole := Encoded(frame);
    assert whole[1..5] == BigEndian(|frame.payload|);
    if cut >= 5 {
      assert whole[..cut][1..5] == whole[1..5];
    }
  }

  lemma {:induction false} StreamsConcatenate(a: seq<Frame>, b: seq<Frame>)
    requires Sendable(a) && Sendable(b)
    ensures Sendable(a + b) && Stream(a + b) == Stream(a) + Stream(b)
    decreases |a|
  {
    hide Encoded;
    if a == [] {
      assert a + b == b;
    } else {
      StreamsConcatenate(a[1..], b);
      assert (a + b)[1..] == a[1..] + b;
    }
  }
}

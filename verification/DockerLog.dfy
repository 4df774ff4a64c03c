/** Stripping the frame headers from a container's multiplexed log stream. */
module DockerLog {
  import opened Common

  newtype Byte = x: int | 0 <= x < 256

  /** One frame: stream number, three padding bytes, big-endian length, payload. */
  datatype Frame = Frame(stream: Byte, pad: seq<Byte>, payload: seq<Byte>) {
    ghost predicate Valid() {
      (stream == 1 || stream == 2) && |pad| == 3 && |payload| < 0x1_0000_0000
    }
  }

  function BigEndian(a: Byte, b: Byte, c: Byte, d: Byte): nat {
    a as int * 0x100_0000 + b as int * 0x1_0000 + c as int * 0x100 + d as int
  }

  ghost function LengthBytes(n: nat): seq<Byte>
    requires n < 0x1_0000_0000
  {
    var q1 := n / 0x100;
    var q2 := q1 / 0x100;
    [(q2 / 0x100) as Byte, (q2 % 0x100) as Byte, (q1 % 0x100) as Byte, (n % 0x100) as Byte]
  }

  ghost function Encoded(f: Frame): seq<Byte>
    requires f.Valid()
  {
    [f.stream] + f.pad + LengthBytes(|f.payload|) + f.payload
  }

  ghost predicate AllValid(frames: seq<Frame>) { forall i | 0 <= i < |frames| :: frames[i].Valid() }

  ghost function EncodedAll(frames: seq<Frame>): seq<Byte>
    requires AllValid(frames)
  {
    if frames == [] then [] else Encoded(frames[0]) + EncodedAll(frames[1..])
  }

  ghost function Payloads(frames: seq<Frame>): seq<Byte> {
    if frames == [] then [] else frames[0].payload + Payloads(frames[1..])
  }

  /** The payload size a header announces. */
  function SizeAt(raw: seq<Byte>): nat
    requires |raw| >= 8
  {
    BigEndian(raw[4], raw[5], raw[6], raw[7])
  }

  /** The bytes begin with a header and the whole payload it announces. */
  predicate StartsWithFrame(raw: seq<Byte>) {
    |raw| >= 8 && (raw[0] == 1 || raw[0] == 2) && SizeAt(raw) <= |raw| - 8
  }

  ghost function Chain(raw: seq<Byte>): seq<Byte> {
    if StartsWithFrame(raw) then raw[8..8 + SizeAt(raw)] + Chain(raw[8 + SizeAt(raw)..]) else raw
  }

  method DecodeDockerLogStream(stream: seq<Byte>) returns (text: seq<Byte>)
    ensures text == Chain(stream)
  {
    var raw, decoded := stream, [];
    while |raw| >= 8 && (raw[0] == 1 || raw[0] == 2)
      invariant decoded + Chain(raw) == Chain(stream)
      decreases |raw|
    {
      var size := BigEndian(raw[4], raw[5], raw[6], raw[7]);
      if size > |raw| - 8 {
        break;
      }
      ConcatAssociates(decoded, raw[8..8 + size], Chain(raw[8 + size..]));
      decoded := decoded + raw[8..8 + size];
      raw := raw[8 + size..];
    }
    assert Chain(raw) == raw;
    if |decoded| == 0 {
      assert [] + raw == raw;
      return raw;
    }
    text := decoded + raw;
  }

  lemma BigEndianInvertsLengthBytes(n: nat)
    requires n < 0x1_0000_0000
    ensures var bs := LengthBytes(n); BigEndian(bs[0], bs[1], bs[2], bs[3]) == n
  {
  }

  lemma LengthBytesInvertBigEndian(a: Byte, b: Byte, c: Byte, d: Byte)
    ensures BigEndian(a, b, c, d) < 0x1_0000_0000
    ensures LengthBytes(BigEndian(a, b, c, d)) == [a, b, c, d]
  {
    var n := BigEndian(a, b, c, d);
    var q1 := a as int * 0x1_0000 + b as int * 0x100 + c as int;
    assert n == q1 * 0x100 + d as int;
    assert n / 0x100 == q1 && n % 0x100 == d as int;
    var q2 := a as int * 0x100 + b as int;
    assert q1 == q2 * 0x100 + c as int;
    assert q1 / 0x100 == q2 && q1 % 0x100 == c as int;
  }

  /** A frame's bytes in front of anything are taken off as that frame. */
  lemma FrameComesOff(f: Frame, rest: seq<Byte>)
    requires f.Valid()
    ensures var raw := Encoded(f) + rest;
            && StartsWithFrame(raw) && SizeAt(raw) == |f.payload|
            && raw[8..8 + SizeAt(raw)] == f.payload && raw[8 + SizeAt(raw)..] == rest
  {
    var raw, head := Encoded(f) + rest, [f.stream] + f.pad + LengthBytes(|f.payload|);
    BigEndianInvertsLengthBytes(|f.payload|);
    assert |head| == 8 && raw == head + f.payload + rest;
    assert forall i | 0 <= i < 8 :: raw[i] == head[i];
    assert head[4..8] == LengthBytes(|f.payload|);
    assert head[4] == head[4..8][0] && head[5] == head[4..8][1] && head[6] == head[4..8][2] && head[7] == head[4..8][3];
  }

  /** What whole frames followed by anything that starts no frame decode to. */
  lemma {:induction false} DecodeFramesThenRest(frames: seq<Frame>, rest: seq<Byte>)
    requires AllValid(frames) && !StartsWithFrame(rest)
    ensures Chain(EncodedAll(frames) + rest) == Payloads(frames) + rest
  {
    if frames == [] {
      assert [] + rest == rest;
    } else {
      var tail := EncodedAll(frames[1..]) + rest;
      ConcatAssociates(Encoded(frames[0]), EncodedAll(frames[1..]), rest);
      DecodeFramesThenRest(frames[1..], rest);
      ChainTakesFrame(frames[0], tail);
      ConcatAssociates(frames[0].payload, Payloads(frames[1..]), rest);
    }
  }

  lemma ChainTakesFrame(f: Frame, rest: seq<Byte>)
    requires f.Valid()
    ensures Chain(Encoded(f) + rest) == f.payload + Chain(rest)
  {
    FrameComesOff(f, rest);
  }

  /** The round trip. */
  lemma DecodeInvertsEncode(frames: seq<Frame>)
    requires AllValid(frames)
    ensures Chain(EncodedAll(frames)) == Payloads(frames)
  {
    DecodeFramesThenRest(frames, []);
    assert EncodedAll(frames) + [] == EncodedAll(frames) && Payloads(frames) + [] == Payloads(frames);
  }

  /** The frame the bytes begin with. */
  ghost function FirstFrame(raw: seq<Byte>): Frame
    requires StartsWithFrame(raw)
  {
    Frame(raw[0], raw[1..4], raw[8..8 + SizeAt(raw)])
  }

  lemma HeaderAndRest(raw: seq<Byte>, length: seq<Byte>, size: nat)
    requires 8 + size <= |raw| && length == [raw[4], raw[5], raw[6], raw[7]]
    ensures raw == [raw[0]] + raw[1..4] + length + raw[8..8 + size] + raw[8 + size..]
  {
    assert raw[..8] == [raw[0]] + raw[1..4] + length;
    assert raw == raw[..8] + raw[8..8 + size] + raw[8 + size..];
  }

  lemma FirstFrameEncodes(raw: seq<Byte>)
    requires StartsWithFrame(raw)
    ensures FirstFrame(raw).Valid() && raw == Encoded(FirstFrame(raw)) + raw[8 + SizeAt(raw)..]
  {
    LengthBytesInvertBigEndian(raw[4], raw[5], raw[6], raw[7]);
    HeaderAndRest(raw, LengthBytes(SizeAt(raw)), SizeAt(raw));
  }

  /** Any bytes at all split into the maximal chain of whole frames and a remainder that starts none,
      and decode to the frames' payloads and then that remainder. */
  lemma {:induction false} AnyBytesDecode(raw: seq<Byte>) returns (frames: seq<Frame>, rest: seq<Byte>)
    ensures AllValid(frames) && raw == EncodedAll(frames) + rest && !StartsWithFrame(rest)
    ensures Chain(raw) == Payloads(frames) + rest
    decreases |raw|
  {
    if StartsWithFrame(raw) {
      var f, tail := FirstFrame(raw), raw[8 + SizeAt(raw)..];
      var more, r := AnyBytesDecode(tail);
      FirstFrameEncodes(raw);
      frames, rest := [f] + more, r;
      assert frames[1..] == more;
      ConcatAssociates(Encoded(f), EncodedAll(more), rest);
    } else {
      frames, rest := [], raw;
      assert [] + raw == raw;
    }
    DecodeFramesThenRest(frames, rest);
  }

  /** That split is the only one: the frame boundaries, not just the text, are determined by the bytes. */
  lemma {:induction false} SplitIsUnique(a: seq<Frame>, ra: seq<Byte>, b: seq<Frame>, rb: seq<Byte>)
    requires AllValid(a) && AllValid(b) && !StartsWithFrame(ra) && !StartsWithFrame(rb)
    requires EncodedAll(a) + ra == EncodedAll(b) + rb
    ensures a == b && ra == rb
  {
    FirstOfSplit(a, ra);
    FirstOfSplit(b, rb);
    if a != [] {
      SplitIsUnique(a[1..], ra, b[1..], rb);
      assert a == [a[0]] + a[1..] && b == [b[0]] + b[1..];
    } else {
      assert EncodedAll(a) + ra == ra && EncodedAll(b) + rb == rb;
    }
  }

  lemma {:induction false} FirstOfSplit(frames: seq<Frame>, rest: seq<Byte>)
    requires AllValid(frames) && !StartsWithFrame(rest)
    ensures var raw := EncodedAll(frames) + rest;
            && (frames == [] <==> !StartsWithFrame(raw))
            && (frames != [] ==> FirstFrame(raw) == frames[0])
            && (frames != [] ==> raw[8 + SizeAt(raw)..] == EncodedAll(frames[1..]) + rest)
  {
    if frames == [] {
      assert [] + rest == rest;
    } else {
      ConcatAssociates(Encoded(frames[0]), EncodedAll(frames[1..]), rest);
      FrameFields(frames[0], EncodedAll(frames[1..]) + rest);
      FrameComesOff(frames[0], EncodedAll(frames[1..]) + rest);
    }
  }

  lemma FrameFields(f: Frame, rest: seq<Byte>)
    requires f.Valid()
    ensures StartsWithFrame(Encoded(f) + rest) && FirstFrame(Encoded(f) + rest) == f
  {
    FrameComesOff(f, rest);
    var raw := Encoded(f) + rest;
    assert raw[1..4] == f.pad;
  }

  /** The header's first byte weighs most: lengths are ordered as their bytes read from the front. With the lengths
      being exactly the numbers of 32 bits, this leaves no other reading. */
  lemma BigEndianIsLexicographic(a: Byte, b: Byte, c: Byte, d: Byte, e: Byte, f: Byte, g: Byte, h: Byte)
    ensures BigEndian(a, b, c, d) < BigEndian(e, f, g, h)
       <==> a < e || (a == e && (b < f || (b == f && (c < g || (c == g && d < h)))))
    ensures BigEndian(a, b, c, d) < 0x1_0000_0000
  {
  }

  /** What is stripped, byte by byte: a header of eight bytes that begins with 1 or 2, if the payload it announces is
      all there. Anything else stays as it is. */
  lemma HeaderIsStripped(stream: Byte, pad: seq<Byte>, length: seq<Byte>, payload: seq<Byte>, rest: seq<Byte>)
    requires |pad| == 3 && |length| == 4
    requires |payload| == BigEndian(length[0], length[1], length[2], length[3])
    ensures Chain([stream] + pad + length + payload + rest)
         == if stream == 1 || stream == 2 then payload + Chain(rest) else [stream] + pad + length + payload + rest
  {
    var head := [stream] + pad + length;
    var raw := head + payload + rest;
    assert head + payload + rest == [stream] + pad + length + payload + rest;
    assert forall i | 0 <= i < 8 :: raw[i] == head[i];
    assert raw[8..8 + |payload|] == payload && raw[8 + |payload|..] == rest;
  }

  /** Bytes cut short anywhere before the end of the first payload stay as they are. */
  lemma CutFrameStays(f: Frame, n: nat)
    requires f.Valid() && n < |Encoded(f)|
    ensures Chain(Encoded(f)[..n]) == Encoded(f)[..n]
  {
    var head := [f.stream] + f.pad + LengthBytes(|f.payload|);
    BigEndianInvertsLengthBytes(|f.payload|);
    if n >= 8 {
      var raw := Encoded(f)[..n];
      assert forall i | 0 <= i < 8 :: raw[i] == head[i];
      assert head[4..8] == LengthBytes(|f.payload|);
      assert SizeAt(raw) == |f.payload| > |raw| - 8;
    }
  }
}

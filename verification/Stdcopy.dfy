/** The stdcopy framing of internal/api/stream/stdcopy.go, and the client's decoding of it. */
module Stdcopy {
  import opened Wrappers
  import opened Addresses

  type Bytes = seq<Octet>

  datatype Stream = Stdout | Stderr

  /** One frame as the client sees it. */
  datatype Chunk = Chunk(stream: Stream, payload: Bytes)

  function StreamByte(s: Stream): Octet {
    if s == Stdout then 1 else 2
  }

  function BigEndian(x: nat): (b: Bytes)
    ensures |b| == 4
  {
    var a := FromUint32(x % TWO_32);
    [a.b0, a.b1, a.b2, a.b3]
  }

  /** The length field is the low 32 bits of the payload's length. */
  function Frame(s: Stream, data: Bytes): (f: Bytes)
    ensures |f| == 8 + |data|
  {
    [StreamByte(s), 0, 0, 0] + BigEndian(|data|) + data
  }

  method BuildFrame(s: Stream, data: Bytes) returns (frame: array<Octet>)
    ensures fresh(frame) && frame[..] == Frame(s, data)
  {
    frame := new Octet[8 + |data|](_ => 0);
    frame[0] := StreamByte(s);
    var size := BigEndian(|data|);
    frame[4], frame[5], frame[6], frame[7] := size[0], size[1], size[2], size[3];
    for i := 0 to |data|
      invariant frame[..8] == [StreamByte(s), 0, 0, 0] + size
      invariant frame[8..8 + i] == data[..i]
    {
      frame[8 + i] := data[i];
    }
    assert frame[..] == frame[..8] + frame[8..8 + |data|];
  }

  /** Byte 0 names the stream, 1 for stdout and 2 for stderr, bytes 4 to 7 are the length, highest byte
      first, and the payload follows as it is. */
  lemma FrameLayout(s: Stream, data: Bytes)
    ensures var f := Frame(s, data);
            var a: int, b: int, c: int, d: int := f[4], f[5], f[6], f[7];
            && (f[0] == 1 <==> s.Stdout?) && (f[0] == 2 <==> s.Stderr?) && f[1] == f[2] == f[3] == 0
            && a * 0x100_0000 + b * 0x1_0000 + c * 0x100 + d == |data| % TWO_32
            && f[8..] == data
  {
    var f, size := Frame(s, data), BigEndian(|data|);
    assert f[4] == size[0] && f[5] == size[1] && f[6] == size[2] && f[7] == size[3];
    PackUnpack(|data| % TWO_32);
  }

  function Flatten<T>(parts: seq<seq<T>>): seq<T> {
    if parts == [] then [] else parts[0] + Flatten(parts[1..])
  }

  function Frames(chunks: seq<Chunk>): (fs: seq<Bytes>)
    ensures |fs| == |chunks|
  {
    seq(|chunks|, i requires 0 <= i < |chunks| => Frame(chunks[i].stream, chunks[i].payload))
  }

  // ----- The client's side

  function PayloadSize(b: Bytes): nat
    requires |b| >= 8
  {
    ToUint32(Addr(b[4], b[5], b[6], b[7]))
  }

  function StreamOf(x: Octet): Option<Stream> {
    if x == 1 then Some(Stdout) else if x == 2 then Some(Stderr) else None
  }

  /** Header by header, each followed by as many bytes as its length field says; None on a short
      or unknown frame. */
  function Decode(b: Bytes): Option<seq<Chunk>> {
    if b == [] then Some([])
    else if |b| < 8 || StreamOf(b[0]).None? || |b| < 8 + PayloadSize(b) then None
    else
      var n := PayloadSize(b);
      match Decode(b[8 + n..])
      case None => None
      case Some(rest) => Some([Chunk(StreamOf(b[0]).value, b[8..8 + n])] + rest)
  }

  /** The payloads of one stream, in order. */
  function Select(chunks: seq<Chunk>, s: Stream): seq<Bytes> {
    if chunks == [] then []
    else if chunks[0].stream == s then [chunks[0].payload] + Select(chunks[1..], s)
    else Select(chunks[1..], s)
  }

  lemma SizeField(b: Bytes, x: nat)
    requires |b| >= 8 && b[4..8] == BigEndian(x)
    ensures PayloadSize(b) == x % TWO_32
  {
    var y := x % TWO_32;
    var a := FromUint32(y);
    PackUnpack(y);
    var field := b[4..8];
    assert field[0] == a.b0 && field[1] == a.b1 && field[2] == a.b2 && field[3] == a.b3;
    assert Addr(b[4], b[5], b[6], b[7]) == a;
  }

  lemma FrameSize(s: Stream, data: Bytes, rest: Bytes)
    ensures PayloadSize(Frame(s, data) + rest) == |data| % TWO_32
  {
    var b := Frame(s, data) + rest;
    var size := BigEndian(|data|);
    FieldAt(StreamByte(s), size, data, rest);
    SizeField(b, |data|);
  }

  lemma FieldAt(t: Octet, size: Bytes, data: Bytes, rest: Bytes)
    requires |size| == 4
    ensures ([t, 0, 0, 0] + size + data + rest)[4..8] == size
  {
  }

  /** One decoding step, whatever the length field holds. */
  lemma DecodeStep(b: Bytes, t: Octet, size: Bytes, data: Bytes, rest: Bytes)
    requires |size| == 4 && b == [t, 0, 0, 0] + size + data + rest
    requires PayloadSize(b) == |data| && StreamOf(t).Some?
    ensures Decode(b) ==
            match Decode(rest)
            case None => None
            case Some(more) => Some([Chunk(StreamOf(t).value, data)] + more)
  {
    var n := PayloadSize(b);
    assert b[8..8 + n] == data;
    assert b[8 + n..] == rest;
  }

  lemma DecodeFirst(s: Stream, data: Bytes, rest: Bytes)
    requires |data| < TWO_32
    ensures Decode(Frame(s, data) + rest) ==
            match Decode(rest)
            case None => None
            case Some(more) => Some([Chunk(s, data)] + more)
  {
    FrameSize(s, data, rest);
    var size := BigEndian(|data|);
    DecodeStep(Frame(s, data) + rest, StreamByte(s), size, data, rest);
  }

  /** Decoding a concatenation of frames gives the chunks back. */
  lemma {:induction false} DecodeFrames(chunks: seq<Chunk>)
    requires forall c <- chunks :: |c.payload| < TWO_32
    ensures Decode(Flatten(Frames(chunks))) == Some(chunks)
  {
    if chunks != [] {
      var c, rest := chunks[0], chunks[1..];
      DecodeFrames(rest);
      assert Frames(chunks) == [Frame(c.stream, c.payload)] + Frames(rest);
      DecodeFirst(c.stream, c.payload, Flatten(Frames(rest)));
      assert [c] + rest == chunks;
    }
  }

  lemma FirstPayload(b: Bytes)
    requires |b| >= 8
    ensures Decode(b).Some? ==> |Decode(b).value| > 0 && |Decode(b).value[0].payload| == PayloadSize(b)
  {
  }

  /** A frame decodes to what was framed exactly when the payload's length fits its field. */
  lemma FrameRoundTripExactly(s: Stream, data: Bytes)
    ensures Decode(Frame(s, data)) == Some([Chunk(s, data)]) <==> |data| < TWO_32
  {
    assert Frame(s, data) + [] == Frame(s, data);
    if |data| < TWO_32 {
      DecodeFirst(s, data, []);
      assert [Chunk(s, data)] + [] == [Chunk(s, data)];
    } else {
      FrameSize(s, data, []);
      FirstPayload(Frame(s, data));
    }
  }

  lemma {:induction false} FlattenAppend<T>(a: seq<seq<T>>, b: seq<seq<T>>)
    ensures Flatten(a + b) == Flatten(a) + Flatten(b)
  {
    if a == [] {
      assert a + b == b;
    } else {
      FlattenAppend(a[1..], b);
      assert (a + b)[1..] == a[1..] + b;
      assert a[0] + (Flatten(a[1..]) + Flatten(b)) == a[0] + Flatten(a[1..]) + Flatten(b);
    }
  }

  lemma FlattenOne<T>(a: seq<T>)
    ensures Flatten([a]) == a
  {
    assert [a][1..] == [];
  }
}

/** Length-prefixed frames on the socket: four bytes of big-endian length, then the body.
    One char stands for one byte. */
module Framing {
  import opened TraceModel

  const MAX_BODY: nat := 256 * 1024

  function ByteAt(n: nat, unit: nat): char
    requires unit > 0
  {
    (n / unit % 256) as char
  }

  /** The length as an unsigned 32-bit value, most significant byte first. */
  function Header(len: nat): string {
    [ByteAt(len, 0x100_0000), ByteAt(len, 0x1_0000), ByteAt(len, 0x100), ByteAt(len, 1)]
  }

  function HeaderValue(h: string): nat
    requires |h| == 4
  {
    h[0] as nat * 0x100_0000 + h[1] as nat * 0x1_0000 + h[2] as nat * 0x100 + h[3] as nat
  }

  function WriteFrame(body: string): string {
    Header(|body|) + body
  }

  /** One frame off the front of a stream, and what is left; no frame when the stream ends early or the length is refused. */
  function ReadFrame(stream: string): (Option<string>, string) {
    if |stream| < 4 then (None, [])
    else
      var len := HeaderValue(stream[..4]);
      if len == 0 || len > MAX_BODY then (None, stream[4..])
      else if |stream| < 4 + len then (None, [])
      else (Some(stream[4..4 + len]), stream[4 + len..])
  }

  lemma HeaderReads(len: nat)
    ensures HeaderValue(Header(len)) == len % 0x1_0000_0000
  {
    var a, b, c, d := len / 0x100_0000 % 256, len / 0x1_0000 % 256, len / 0x100 % 256, len % 256;
    var q := len / 0x1_0000_0000;
    assert len / 0x100 == len / 0x1_0000 * 256 + c;
    assert len / 0x1_0000 == len / 0x100_0000 * 256 + b;
    assert len / 0x100_0000 == q * 256 + a;
    assert len == len / 0x100 * 256 + d;
  }

  /** The number that bytes write in base 256, the first byte the most significant. */
  function BigEndian(bytes: string): nat {
    if bytes == [] then 0 else 256 * BigEndian(bytes[..|bytes| - 1]) + bytes[|bytes| - 1] as nat
  }

  /** A frame is the length of its body, most significant byte first, and the body. */
  lemma FrameIs(body: string)
    requires |body| < 0x1_0000_0000
    ensures var f := WriteFrame(body);
            && |f| == 4 + |body| && f[4..] == body && BigEndian(f[..4]) == |body| && forall i :: 0 <= i < 4 ==> f[i] as int < 256
  {
    var h := WriteFrame(body)[..4];
    assert h == Header(|body|);
    HeaderReads(|body|);
    FourBytes(h);
  }

  lemma OneByteMore(bytes: string, c: char)
    ensures BigEndian(bytes + [c]) == 256 * BigEndian(bytes) + c as nat
  {
    assert (bytes + [c])[..|bytes|] == bytes;
  }

  lemma TwoBytes(a: char, b: char)
    ensures BigEndian([a, b]) == 0x100 * a as nat + b as nat
  {
    OneByteMore([], a);
    OneByteMore([a], b);
    assert [] + [a] == [a] && [a] + [b] == [a, b];
  }

  lemma ThreeBytes(a: char, b: char, c: char)
    ensures BigEndian([a, b, c]) == 0x1_0000 * a as nat + 0x100 * b as nat + c as nat
  {
    TwoBytes(a, b);
    OneByteMore([a, b], c);
    assert [a, b] + [c] == [a, b, c];
  }

  lemma FourBytes(h: string)
    requires |h| == 4
    ensures BigEndian(h) == HeaderValue(h)
  {
    ThreeBytes(h[0], h[1], h[2]);
    OneByteMore([h[0], h[1], h[2]], h[3]);
    assert [h[0], h[1], h[2]] + [h[3]] == h;
  }

  /** A written frame reads back exactly when its body is not empty and not over the limit. */
  lemma FrameReadsBack(body: string, rest: string)
    ensures ReadFrame(WriteFrame(body) + rest) == (Some(body), rest) <==> 0 < |body| <= 262144
  {
    var s := WriteFrame(body) + rest;
    HeaderReads(|body|);
    assert s[..4] == Header(|body|);
    var len := HeaderValue(s[..4]);
    if 0 < |body| <= MAX_BODY {
      assert len == |body|;
      assert s[4..4 + len] == body && s[4 + len..] == rest;
    }
  }

  function Stream(bodies: seq<string>): string {
    if bodies == [] then [] else WriteFrame(bodies[0]) + Stream(bodies[1..])
  }

  function ReadFrames(stream: string, k: nat): (seq<string>, string) {
    if k == 0 then ([], stream)
    else
      var (body, rest) := ReadFrame(stream);
      if body.None? then ([], rest)
      else
        var (more, left) := ReadFrames(rest, k - 1);
        ([body.value] + more, left)
  }

  predicate Framable(bodies: seq<string>) {
    forall i :: 0 <= i < |bodies| ==> 0 < |bodies[i]| <= MAX_BODY
  }

  /** Any list of bodies within the limits is read back as the same list. */
  lemma {:induction false} StreamReadsBack(bodies: seq<string>, rest: string)
    requires Framable(bodies)
    ensures ReadFrames(Stream(bodies) + rest, |bodies|) == (bodies, rest)
  {
    if bodies == [] {
      assert [] + rest == rest;
    } else {
      FrameReadsBack(bodies[0], Stream(bodies[1..]) + rest);
      assert Stream(bodies) + rest == WriteFrame(bodies[0]) + (Stream(bodies[1..]) + rest);
      StreamReadsBack(bodies[1..], rest);
      assert bodies == [bodies[0]] + bodies[1..];
    }
  }

  /** The receiving end of a socket: the bytes still to come, handed out in pieces of the kernel's choosing. */
  class Socket {
    var pending: string

    constructor (bytes: string)
      ensures pending == bytes
    {
      pending := bytes;
    }

    /** Some of the bytes to come, at most `max`; none only at the end of the stream. */
    method Recv(max: nat) returns (piece: string)
      requires max > 0
      modifies this
      ensures piece + pending == old(pending) && |piece| <= max
      ensures piece == [] <==> old(pending) == []
    {
      if pending == [] { return []; }
      var most := if max < |pending| then max else |pending|;
      var n: nat :| 1 <= n <= most;
      piece := pending[..n];
      pending := pending[n..];
    }

    /** Exactly `len` bytes, however they arrive; nothing when the stream ends first. */
    method ReadExact(len: nat) returns (buf: Option<string>)
      modifies this
      ensures |old(pending)| >= len ==> buf == Some(old(pending)[..len]) && pending == old(pending)[len..]
      ensures |old(pending)| < len ==> buf == None && pending == []
    {
      var got: string := [];
      while |got| < len
        invariant |got| <= len && got + pending == old(pending)
        decreases len - |got|
      {
        var piece := Recv(len - |got|);
        if piece == [] {
          assert got + [] == got;
          return None;
        }
        got := got + piece;
      }
      assert old(pending)[..len] == got && old(pending)[len..] == pending;
      buf := Some(got);
    }

    /** One frame, however the stream is cut into pieces. */
    method ReadFrameBlocking() returns (body: Option<string>)
      modifies this
      ensures (body, pending) == ReadFrame(old(pending))
    {
      ghost var s := pending;
      var hdr := ReadExact(4);
      if hdr.None? { return None; }
      var len := HeaderValue(hdr.value);
      if len == 0 || len > MAX_BODY { return None; }
      body := ReadExact(len);
      if body.Some? {
        assert s[4..][..len] == s[4..4 + len] && s[4..][len..] == s[4 + len..];
      }
    }
  }
}

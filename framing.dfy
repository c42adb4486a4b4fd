/**
  The wire framing shared by the relay and its clients: every message is a
  4-byte big-endian unsigned length `N` followed by exactly `N` payload bytes
  (Python's `struct.pack('>I', len(s)) + s.encode('utf-8')`).

  Reading side: a `Connection` hands out bytes the way a stream socket's
  `recv` does, in chunks whose sizes the model leaves open. `RecvAll` and
  `ReceiveMessage` accumulate chunks exactly as the source does and are proved
  against the pure decoder `DecodeFrame`.
 */
module Framing {
  import opened Wrappers

  type Byte = x: int | 0 <= x < 256

  const HEADER_LENGTH: nat := 4
  /** One more than the largest length a 4-byte unsigned header can carry. */
  const FRAME_LIMIT: nat := 0x1_0000_0000

  /** `struct.pack('>I', n)` */
  function EncodeHeader(n: nat): (h: seq<Byte>)
    requires n < FRAME_LIMIT
    ensures |h| == HEADER_LENGTH
  {
    var q1 := n / 256;
    var q2 := q1 / 256;
    [q2 / 256, q2 % 256, q1 % 256, n % 256]
  }

  /** `struct.unpack('>I', h)[0]` */
  function DecodeHeader(h: seq<Byte>): (n: nat)
    requires |h| == HEADER_LENGTH
    ensures n < FRAME_LIMIT
  {
    ((h[0] as int * 256 + h[1]) * 256 + h[2]) * 256 + h[3]
  }

  lemma HeaderRoundTrip(n: nat)
    requires n < FRAME_LIMIT
    ensures DecodeHeader(EncodeHeader(n)) == n
  {
    var q1 := n / 256;
    var q2 := q1 / 256;
    assert n == q1 * 256 + n % 256;
    assert q1 == q2 * 256 + q1 % 256;
    assert q2 == (q2 / 256) * 256 + q2 % 256;
  }

  /** Every 4-byte header is the encoding of exactly one length. */
  lemma HeaderInverse(h: seq<Byte>)
    requires |h| == HEADER_LENGTH
    ensures EncodeHeader(DecodeHeader(h)) == h
  {
    var n := DecodeHeader(h);
    var q2: int := h[0] as int * 256 + h[1];
    var q1: int := q2 * 256 + h[2];
    assert n == q1 * 256 + h[3];
    assert n / 256 == q1 && n % 256 == h[3];
    assert q1 / 256 == q2 && q1 % 256 == h[2];
    assert q2 / 256 == h[0] && q2 % 256 == h[1];
  }

  /** One frame: header carrying the payload length, then the payload. */
  function EncodeFrame(payload: seq<Byte>): (f: seq<Byte>)
    requires |payload| < FRAME_LIMIT
    ensures |f| == HEADER_LENGTH + |payload| && f[HEADER_LENGTH..] == payload
  {
    EncodeHeader(|payload|) + payload
  }

  /** Exactly `n` bytes from the front of `s` and what follows them, or `None`
      when the stream ends first. */
  function ReadExactly(s: seq<Byte>, n: nat): (r: Option<(seq<Byte>, seq<Byte>)>)
    ensures r.Some? <==> n <= |s|
    ensures r.Some? ==> |r.value.0| == n && r.value.0 + r.value.1 == s
  {
    if n <= |s| then Some((s[..n], s[n..])) else None
  }

  /** The first frame of a stream: its payload and the bytes after it. A stream
      that ends before the header is complete, or in the middle of the payload,
      yields `None`, the same as a clean close. */
  function DecodeFrame(s: seq<Byte>): (r: Option<(seq<Byte>, seq<Byte>)>)
    ensures r.None? <==> |s| < HEADER_LENGTH || |s| - HEADER_LENGTH < DecodeHeader(s[..HEADER_LENGTH])
    ensures r.Some? ==> |r.value.0| < FRAME_LIMIT && s == EncodeFrame(r.value.0) + r.value.1
  {
    match ReadExactly(s, HEADER_LENGTH)
    case None => None
    case Some((header, rest)) =>
      var r := ReadExactly(rest, DecodeHeader(header));
      HeaderInverse(header);
      r
  }

  /** `t` is what remains of `s` after some prefix of it has been read. */
  ghost predicate IsSuffix<T>(t: seq<T>, s: seq<T>) {
    |t| <= |s| && t == s[|s| - |t|..]
  }

  lemma SuffixTransitive<T>(u: seq<T>, t: seq<T>, s: seq<T>)
    requires IsSuffix(u, t) && IsSuffix(t, s)
    ensures IsSuffix(u, s)
  {
    assert s[|s| - |t|..][|t| - |u|..] == s[|s| - |u|..];
  }

  /** Reading a frame consumes at least its header. */
  lemma FrameRestIsSuffix(s: seq<Byte>)
    requires DecodeFrame(s).Some?
    ensures |DecodeFrame(s).value.1| < |s| && IsSuffix(DecodeFrame(s).value.1, s)
  {
    var (p, rest) := DecodeFrame(s).value;
    assert s == EncodeFrame(p) + rest;
  }

  /** Decoding a frame followed by anything gives back the payload and the rest. */
  lemma FrameRoundTrip(payload: seq<Byte>, rest: seq<Byte>)
    requires |payload| < FRAME_LIMIT
    ensures DecodeFrame(EncodeFrame(payload) + rest) == Some((payload, rest))
  {
    var s := EncodeFrame(payload) + rest;
    HeaderRoundTrip(|payload|);
    assert s[..HEADER_LENGTH] == EncodeHeader(|payload|);
    assert s[HEADER_LENGTH..] == payload + rest;
  }

  /** A stream cut anywhere inside a frame decodes to nothing. */
  lemma FrameTruncated(payload: seq<Byte>, k: nat)
    requires |payload| < FRAME_LIMIT
    requires k < |EncodeFrame(payload)|
    ensures DecodeFrame(EncodeFrame(payload)[..k]) == None
  {
    var s := EncodeFrame(payload)[..k];
    if HEADER_LENGTH <= k {
      HeaderRoundTrip(|payload|);
      assert s[..HEADER_LENGTH] == EncodeHeader(|payload|);
    }
  }

  /** Text whose every character is 7-bit ASCII, as `json.dumps` produces by default. */
  predicate IsAscii(text: string) {
    forall i :: 0 <= i < |text| ==> text[i] as int < 128
  }

  /** `text.encode('utf-8')` for ASCII text: one byte per character. */
  function AsciiBytes(text: string): (b: seq<Byte>)
    requires IsAscii(text)
    ensures |b| == |text|
    ensures forall i :: 0 <= i < |b| ==> b[i] as char == text[i]
  {
    seq(|text|, i requires 0 <= i < |text| => text[i] as int)
  }

  /** `bytes.decode('utf-8')` on ASCII bytes. */
  function AsciiText(b: seq<Byte>): (text: string)
    requires forall i :: 0 <= i < |b| ==> b[i] < 128
  {
    seq(|b|, i requires 0 <= i < |b| => b[i] as char)
  }

  /** The frame the source writes for a text message:
      `struct.pack('>I', len(text)) + text.encode('utf-8')`. The header carries
      the number of characters, not of bytes. */
  function TextFrame(text: string): (f: seq<Byte>)
    requires IsAscii(text) && |text| < FRAME_LIMIT
    ensures |f| == HEADER_LENGTH + |text|
    ensures DecodeHeader(f[..HEADER_LENGTH]) == |text|
  {
    HeaderRoundTrip(|text|);
    var f := EncodeHeader(|text|) + AsciiBytes(text);
    assert f[..HEADER_LENGTH] == EncodeHeader(|text|);
    f
  }

  /** For ASCII text the character count is the byte count, so the receiver
      reads back exactly the text that was sent, whatever follows it. */
  lemma TextFrameRoundTrip(text: string, rest: seq<Byte>)
    requires IsAscii(text) && |text| < FRAME_LIMIT
    ensures TextFrame(text) == EncodeFrame(AsciiBytes(text))
    ensures match DecodeFrame(TextFrame(text) + rest)
            case Some((payload, rest')) =>
              rest' == rest && (forall i :: 0 <= i < |payload| ==> payload[i] < 128) && AsciiText(payload) == text
            case None => false
  {
    var b := AsciiBytes(text);
    FrameRoundTrip(b, rest);
    assert AsciiText(b) == text;
  }

  /** Concatenation of the frames of a sequence of payloads, as a sender writes them. */
  function EncodeFrames(payloads: seq<seq<Byte>>): (s: seq<Byte>)
    requires forall i :: 0 <= i < |payloads| ==> |payloads[i]| < FRAME_LIMIT
  {
    if payloads == [] then [] else EncodeFrame(payloads[0]) + EncodeFrames(payloads[1..])
  }

  /** All complete frames at the front of a stream, in order. */
  function DecodeFrames(s: seq<Byte>): (payloads: seq<seq<Byte>>)
    decreases |s|
  {
    match DecodeFrame(s)
    case None => []
    case Some((payload, rest)) => [payload] + DecodeFrames(rest)
  }

  /** Frames arrive whole and in the order they were sent; a trailing partial
      frame is never delivered. */
  lemma {:induction false} FramesInOrder(payloads: seq<seq<Byte>>, partial: seq<Byte>)
    requires forall i :: 0 <= i < |payloads| ==> |payloads[i]| < FRAME_LIMIT
    requires DecodeFrame(partial) == None
    ensures DecodeFrames(EncodeFrames(payloads) + partial) == payloads
  {
    if payloads != [] {
      var tail := EncodeFrames(payloads[1..]) + partial;
      assert EncodeFrames(payloads) + partial == EncodeFrame(payloads[0]) + tail;
      FrameRoundTrip(payloads[0], tail);
      FramesInOrder(payloads[1..], partial);
    }
  }

  /** One end of a stream connection. `unread` holds the bytes the peer has sent
      and this side has not read yet; the peer closes after them. */
  class Connection {
    var unread: seq<Byte>

    constructor (incoming: seq<Byte>)
      ensures unread == incoming
    {
      unread := incoming;
    }

    /** `recv(max)`: some non-empty prefix of at most `max` bytes, or the empty
        read that signals the peer has closed. How the stream is cut into
        chunks is left open: callers rely on this contract only. */
    method Recv(max: nat) returns (packet: seq<Byte>)
      requires max > 0
      modifies this
      ensures |packet| <= max
      ensures packet == [] <==> old(unread) == []
      ensures old(unread) == packet + unread
    {
      var n := if |unread| < max then |unread| else max;
      packet := unread[..n];
      unread := unread[n..];
    }
  }

  /** `recvall`: read exactly `n` bytes, or `None` when the peer closes first. */
  method RecvAll(conn: Connection, n: nat) returns (data: Option<seq<Byte>>)
    modifies conn
    ensures data == if n <= |old(conn.unread)| then Some(old(conn.unread)[..n]) else None
    ensures conn.unread == if n <= |old(conn.unread)| then old(conn.unread)[n..] else []
  {
    var buffer: seq<Byte> := [];
    while |buffer| < n
      invariant |buffer| <= n
      invariant old(conn.unread) == buffer + conn.unread
      decreases n - |buffer|
    {
      var packet := conn.Recv(n - |buffer|);
      if packet == [] {
        return None;
      }
      buffer := buffer + packet;
    }
    assert old(conn.unread)[..n] == buffer;
    return Some(buffer);
  }

  /** `receiveMessage`: the payload of the next frame, or `None` when the peer
      closes before a whole frame has arrived. */
  method ReceiveMessage(conn: Connection) returns (payload: Option<seq<Byte>>)
    modifies conn
    ensures payload == match DecodeFrame(old(conn.unread))
                       case None => None
                       case Some((p, _)) => Some(p)
    ensures conn.unread == match DecodeFrame(old(conn.unread))
                           case None => []
                           case Some((_, rest)) => rest
  {
    var header := RecvAll(conn, HEADER_LENGTH);
    if header.None? {
      return None;
    }
    var size := DecodeHeader(header.value);
    payload := RecvAll(conn, size);
  }
}

/**
 * The central log server's stream decoder (`LogRecordStreamHandler.handle`
 * in central_log_server.py): each log record arrives as a 4-byte big-endian
 * unsigned length followed by that many bytes of pickled record.
 *
 * The connection is the byte sequence the client sent, consumed left to
 * right; every byte is already buffered, so `recv(n)` returns the next
 * min(n, remaining) bytes, and nothing once the stream is exhausted.
 * `pickle.loads` is the opaque predicate `loads` (true when it returns a
 * record); the record handed to the central logger is the one built from
 * the frame's payload, which the model reports as that payload.
 */
module LogFraming {

  type byte = b: int | 0 <= b < 256

  /** One more than the largest length a 4-byte prefix can carry. */
  const Limit: nat := 0x1_0000_0000

  /** `struct.unpack('>L', chunk)[0]` (central_log_server.py line 16). */
  function BigEndian32(b: seq<byte>): (n: nat)
    requires |b| == 4
    ensures n < Limit
  {
    ((b[0] as int * 0x100 + b[1]) * 0x100 + b[2]) * 0x100 + b[3]
  }

  /** `struct.pack('>L', n)`: the prefix a client writes before a payload
      of length `n`. */
  function LengthPrefix(n: nat): (b: seq<byte>)
    requires n < Limit
    ensures |b| == 4 && BigEndian32(b) == n
  {
    var q1 := n / 0x100;
    var q2 := q1 / 0x100;
    [q2 / 0x100, q2 % 0x100, q1 % 0x100, n % 0x100]
  }

  /** Every 4 bytes are the prefix of exactly one length. */
  lemma LengthPrefixOfBigEndian32(b: seq<byte>)
    requires |b| == 4
    ensures LengthPrefix(BigEndian32(b)) == b
  {
    var n := BigEndian32(b);
    var q1 := (b[0] as int * 0x100 + b[1]) * 0x100 + b[2];
    var q2 := b[0] as int * 0x100 + b[1];
    assert n == q1 * 0x100 + b[3] as int;
    assert n / 0x100 == q1 && n % 0x100 == b[3];
    assert q1 / 0x100 == q2 && q1 % 0x100 == b[2];
    assert q2 / 0x100 == b[0] && q2 % 0x100 == b[1];
  }

  predicate Framable(payloads: seq<seq<byte>>) {
    forall k :: 0 <= k < |payloads| ==> |payloads[k]| < Limit
  }

  /** One frame as a client sends it: prefix, then payload. */
  function Frame(payload: seq<byte>): (f: seq<byte>)
    requires |payload| < Limit
    ensures |f| == 4 + |payload| && BigEndian32(f[..4]) == |payload| && f[4..] == payload
  {
    LengthPrefix(|payload|) + payload
  }

  /** The byte stream a client produces for a sequence of payloads. */
  function Encode(payloads: seq<seq<byte>>): (e: seq<byte>)
    requires Framable(payloads)
    ensures e == [] <==> payloads == []
    ensures payloads != [] ==> Frame(payloads[0]) <= e
  {
    if payloads == [] then [] else Frame(payloads[0]) + Encode(payloads[1..])
  }

  /** Why `handle` stops reading. */
  datatype Stop =
      /** `recv(4)` returned fewer than 4 bytes (0 to 3, discarded): the
          loop breaks. */
    | EndOfStream(leftover: nat)
      /** The stream ended inside a payload: `received` of the `expected`
          bytes arrived. The source then calls `recv` forever, each call
          returning nothing; the model reports this instead of a frame. */
    | Truncated(expected: nat, received: nat)
      /** `pickle.loads` raised on a complete payload. */
    | Unreadable

  /** The records handed on, in stream order, and why decoding stopped. */
  datatype Decoded = Decoded(records: seq<seq<byte>>, stop: Stop)

  function Prepend(records: seq<seq<byte>>, d: Decoded): Decoded {
    Decoded(records + d.records, d.stop)
  }

  /** What one pass of the outer loop finds at the head of the stream. */
  datatype FrameRead =
      /** Fewer than 4 bytes remain for the length prefix. */
    | Short(leftover: nat)
      /** The prefix announces `expected` bytes but only `received` follow. */
    | Cut(expected: nat, received: nat)
      /** A complete frame with this payload. */
    | Whole(payload: seq<byte>)

  /** The frame at the head of `s`. */
  function NextFrame(s: seq<byte>): (r: FrameRead)
    ensures r.Short? ==> r.leftover == |s| < 4
    ensures r.Cut? ==> 4 <= |s| && r.received == |s| - 4 < r.expected == BigEndian32(s[..4])
    ensures r.Whole? ==>
      4 + |r.payload| <= |s| && |r.payload| == BigEndian32(s[..4]) &&
      r.payload == s[4..4 + |r.payload|]
  {
    if |s| < 4 then Short(|s|)
    else
      var n := BigEndian32(s[..4]);
      if |s| - 4 < n then Cut(n, |s| - 4) else Whole(s[4..4 + n])
  }

  /** What `handle` does with the bytes of one connection. */
  function Decode(s: seq<byte>, loads: seq<byte> -> bool): (d: Decoded)
    ensures Framable(d.records)
    ensures forall k :: 0 <= k < |d.records| ==> loads(d.records[k])
    decreases |s|
  {
    match NextFrame(s)
    case Short(leftover) => Decoded([], EndOfStream(leftover))
    case Cut(expected, received) => Decoded([], Truncated(expected, received))
    case Whole(p) =>
      if !loads(p) then Decoded([], Unreadable)
      else Prepend([p], Decode(s[4 + |p|..], loads))
  }

  /** `self.connection.recv(n)` at read position `pos`. */
  function Recv(s: seq<byte>, pos: nat, n: nat): (chunk: seq<byte>)
    requires pos <= |s|
    ensures |chunk| == if pos + n <= |s| then n else |s| - pos
    ensures chunk == s[pos..pos + |chunk|]
  {
    if pos + n <= |s| then s[pos..pos + n] else s[pos..]
  }

  /** The payload read of central_log_server.py lines 18-20: `recv(n)`,
      then `recv(n - len(chunk))` until `n` bytes have arrived (the first
      read is the loop's first iteration; for n = 0 neither reads
      anything). Each read asks only for what is still missing, so the
      chunk never exceeds `n` bytes. If the stream ends first, `recv`
      returns nothing from then on and the source loops forever; here the
      read returns the short chunk. */
  method ReadPayload(stream: seq<byte>, pos: nat, n: nat) returns (chunk: seq<byte>)
    requires pos <= |stream|
    ensures |chunk| <= n && pos + |chunk| <= |stream|
    ensures chunk == stream[pos..pos + |chunk|]
    ensures |chunk| == n <==> pos + n <= |stream|
    ensures |chunk| < n ==> pos + |chunk| == |stream|
  {
    chunk := [];
    while |chunk| < n
      invariant |chunk| <= n && pos + |chunk| <= |stream|
      invariant chunk == stream[pos..pos + |chunk|]
      decreases n - |chunk|
    {
      var more := Recv(stream, pos + |chunk|, n - |chunk|);
      if more == [] {
        return;
      }
      chunk := chunk + more;
    }
  }

  /** The payload loop as written never ends once the stream runs dry
      short of `n` bytes: every further `recv` returns nothing, so the
      chunk, and with it the loop condition, never changes. */
  lemma PayloadLoopStalls(stream: seq<byte>, pos: nat, chunk: seq<byte>, n: nat)
    requires pos + |chunk| == |stream| && |chunk| < n
    ensures var more := Recv(stream, pos + |chunk|, n - |chunk|);
      more == [] && |chunk + more| < n
  {

  }

  /** One pass of the outer loop up to the unpickling (lines 14-20):
      `recv(4)`, stop if fewer than 4 bytes came, decode the length, read
      the payload. */
  method ReadFrame(stream: seq<byte>, pos: nat) returns (r: FrameRead)
    requires pos <= |stream|
    ensures r == NextFrame(stream[pos..])
  {
    var prefix := Recv(stream, pos, 4);
    if |prefix| < 4 {
      return Short(|prefix|);
    }
    assert stream[pos..][..4] == prefix;
    var slen := BigEndian32(prefix);
    var chunk := ReadPayload(stream, pos + 4, slen);
    if |chunk| < slen {
      return Cut(slen, |chunk|);
    }
    assert stream[pos..][4..4 + slen] == chunk;
    return Whole(chunk);
  }

  /** The handler loop of central_log_server.py lines 13-23, over the
      stream with a read cursor: frames are handed on in stream order,
      each as soon as it is complete and unpickled. */
  method Handle(stream: seq<byte>, loads: seq<byte> -> bool)
    returns (records: seq<seq<byte>>, stop: Stop)
    ensures Decoded(records, stop) == Decode(stream, loads)
  {
    records := [];
    var pos := 0;
    while true
      invariant pos <= |stream|
      invariant Decode(stream, loads) == Prepend(records, Decode(stream[pos..], loads))
      decreases |stream| - pos
    {
      var r := ReadFrame(stream, pos);
      match r {
        case Short(leftover) =>
          stop := EndOfStream(leftover);
          assert records + [] == records;
          return;
        case Cut(expected, received) =>
          stop := Truncated(expected, received);
          assert records + [] == records;
          return;
        case Whole(p) =>
          if !loads(p) {
            stop := Unreadable;
            assert records + [] == records;
            return;
          }
          HandOnFrame(stream, pos, p, records, loads);
          records := records + [p];
          pos := pos + 4 + |p|;
      }
    }
  }

  /** One complete frame that unpickles at the cursor is handed on, and
      decoding resumes right after it. */
  lemma HandOnFrame(stream: seq<byte>, pos: nat, p: seq<byte>, records: seq<seq<byte>>, loads: seq<byte> -> bool)
    requires pos <= |stream| && NextFrame(stream[pos..]) == Whole(p) && loads(p)
    requires Decode(stream, loads) == Prepend(records, Decode(stream[pos..], loads))
    ensures pos + 4 + |p| <= |stream|
    ensures Decode(stream, loads) == Prepend(records + [p], Decode(stream[pos + 4 + |p|..], loads))
  {
    assert stream[pos..][4 + |p|..] == stream[pos + 4 + |p|..];
    var after := Decode(stream[pos + 4 + |p|..], loads).records;
    assert records + ([p] + after) == (records + [p]) + after;
  }

  // ---------------------------------------------------------------------
  // Decoding what a client encodes

  /** One complete frame whose payload unpickles is handed on as is. */
  lemma DecodeOneFrame(p: seq<byte>, rest: seq<byte>, loads: seq<byte> -> bool)
    requires |p| < Limit && loads(p)
    ensures Decode(Frame(p) + rest, loads) == Prepend([p], Decode(rest, loads))
  {
    var s := Frame(p) + rest;
    assert s[..4] == LengthPrefix(|p|);
    assert s[4..4 + |p|] == p;
    assert s[4 + |p|..] == rest;
  }

  /** Complete frames at the head of a stream decode to their payloads,
      in order, and decoding then carries on with the rest. */
  lemma {:induction false} DecodeAfterFrames(payloads: seq<seq<byte>>, tail: seq<byte>, loads: seq<byte> -> bool)
    requires Framable(payloads)
    requires forall k :: 0 <= k < |payloads| ==> loads(payloads[k])
    ensures Decode(Encode(payloads) + tail, loads) == Prepend(payloads, Decode(tail, loads))
  {
    if payloads == [] {
      assert Encode(payloads) + tail == tail;
    } else {
      var p, rest := payloads[0], payloads[1..];
      calc {
        Decode(Encode(payloads) + tail, loads);
        { EncodeCons(payloads, tail); }
        Decode(Frame(p) + (Encode(rest) + tail), loads);
        { DecodeOneFrame(p, Encode(rest) + tail, loads); }
        Prepend([p], Decode(Encode(rest) + tail, loads));
        { DecodeAfterFrames(rest, tail, loads); }
        Prepend([p], Prepend(rest, Decode(tail, loads)));
        { var d := Decode(tail, loads);
          assert [p] + (rest + d.records) == ([p] + rest) + d.records;
          assert [p] + rest == payloads; }
        Prepend(payloads, Decode(tail, loads));
      }
    }
  }

  /** The stream of several frames is the first frame, then the rest;
      kept apart so that the induction step above stays small. */
  lemma EncodeCons(payloads: seq<seq<byte>>, tail: seq<byte>)
    requires Framable(payloads) && payloads != []
    ensures Encode(payloads) + tail == Frame(payloads[0]) + (Encode(payloads[1..]) + tail)
  {
  }

  /** Round trip: decoding the encoding of payloads that unpickle gives
      back exactly those payloads, and stops cleanly with nothing left. */
  lemma DecodeEncode(payloads: seq<seq<byte>>, loads: seq<byte> -> bool)
    requires Framable(payloads)
    requires forall k :: 0 <= k < |payloads| ==> loads(payloads[k])
    ensures Decode(Encode(payloads), loads) == Decoded(payloads, EndOfStream(0))
  {
    DecodeAfterFrames(payloads, [], loads);
    assert Encode(payloads) + [] == Encode(payloads);
    assert payloads + [] == payloads;
  }

  /** Fewer than 4 bytes after the last complete frame end the stream
      cleanly; those bytes are dropped. */
  lemma DecodeShortTail(payloads: seq<seq<byte>>, tail: seq<byte>, loads: seq<byte> -> bool)
    requires Framable(payloads)
    requires forall k :: 0 <= k < |payloads| ==> loads(payloads[k])
    requires |tail| < 4
    ensures Decode(Encode(payloads) + tail, loads) == Decoded(payloads, EndOfStream(|tail|))
  {
    DecodeAfterFrames(payloads, tail, loads);
    assert payloads + [] == payloads;
  }

  /** A payload cut off by the end of the stream is never handed on: the
      frames before it are, and decoding reports the truncation. */
  lemma DecodeCutOffPayload(
    payloads: seq<seq<byte>>, last: seq<byte>, cut: nat, loads: seq<byte> -> bool
  )
    requires Framable(payloads)
    requires forall k :: 0 <= k < |payloads| ==> loads(payloads[k])
    requires |last| < Limit && cut < |last|
    ensures Decode(Encode(payloads) + LengthPrefix(|last|) + last[..cut], loads)
      == Decoded(payloads, Truncated(|last|, cut))
  {
    var tail := LengthPrefix(|last|) + last[..cut];
    assert Encode(payloads) + LengthPrefix(|last|) + last[..cut] == Encode(payloads) + tail;
    DecodeCut(last, cut, loads);
    DecodeAfterFrames(payloads, tail, loads);
    assert payloads + [] == payloads;
  }

  /** A prefix followed by too few payload bytes decodes to nothing but
      the truncation. */
  lemma DecodeCut(last: seq<byte>, cut: nat, loads: seq<byte> -> bool)
    requires |last| < Limit && cut < |last|
    ensures Decode(LengthPrefix(|last|) + last[..cut], loads) == Decoded([], Truncated(|last|, cut))
  {
    var tail := LengthPrefix(|last|) + last[..cut];
    assert tail[..4] == LengthPrefix(|last|);
  }

  /** Why decoding stopped, read off the frame at the head of what was
      left: fewer than 4 bytes, a payload cut short, or a complete frame
      that does not unpickle. */
  predicate StopsAt(rest: seq<byte>, stop: Stop, loads: seq<byte> -> bool) {
    match stop
    case EndOfStream(leftover) => NextFrame(rest) == Short(leftover)
    case Truncated(expected, received) => NextFrame(rest) == Cut(expected, received)
    case Unreadable => NextFrame(rest).Whole? && !loads(NextFrame(rest).payload)
  }

  /** Whatever the stream, the records are exactly the payloads of the
      complete frames at its head, in order, and the stop reason describes
      the frame that follows them. */
  lemma {:induction false} DecodeConsumesFrames(s: seq<byte>, loads: seq<byte> -> bool)
    ensures var d := Decode(s, loads);
      var used := |Encode(d.records)|;
      used <= |s| && s[..used] == Encode(d.records) && StopsAt(s[used..], d.stop, loads)
    decreases |s|
  {
    var d := Decode(s, loads);
    match NextFrame(s)
    case Short(_) =>
      assert s[0..] == s;
    case Cut(_, _) =>
      assert s[0..] == s;
    case Whole(p) =>
      if !loads(p) {
        assert s[0..] == s;
      } else {
        var rest := s[4 + |p|..];
        DecodeConsumesFrames(rest, loads);
        var r := Decode(rest, loads);
        FramedHead(s, p, r.records, rest);
      }
  }

  /** The bookkeeping step of DecodeConsumesFrames: one frame in front of
      a decoded remainder. */
  lemma FramedHead(s: seq<byte>, p: seq<byte>, recs: seq<seq<byte>>, rest: seq<byte>)
    requires NextFrame(s) == Whole(p) && rest == s[4 + |p|..]
    requires Framable(recs)
    requires |Encode(recs)| <= |rest| && rest[..|Encode(recs)|] == Encode(recs)
    ensures var used := |Encode([p] + recs)|;
      used == 4 + |p| + |Encode(recs)| && used <= |s| &&
      s[..used] == Encode([p] + recs) && s[used..] == rest[|Encode(recs)|..]
  {
    assert ([p] + recs)[0] == p && ([p] + recs)[1..] == recs;
    LengthPrefixOfBigEndian32(s[..4]);
    var rused := |Encode(recs)|;
    assert s[..4 + |p| + rused] == s[..4] + p + rest[..rused];
  }
}

/**
 * The display-frame decoder of the Qt screenshot viewer: a resynchronising
 * parser over a growing receive buffer that maintains a 1024-byte copy of the
 * radio's 128x64 monochrome display.
 *
 * Wire format of one frame: AA 55 | type:u8 | size:u16 big-endian | payload.
 * Type 1 with size 1024 replaces the bitmap; type 2 with a size divisible by 9
 * is a list of (block:u8, 8 bytes) chunks, each patching bytes
 * [8*block, 8*block+8) of the bitmap; anything else is dropped.
 */
module K5Viewer {
  import opened Bytes

  const WIDTH: nat := 128
  const HEIGHT: nat := 64
  const FRAME_SIZE: nat := 1024
  const KEEPALIVE: seq<byte> := [0x55, 0xAA, 0x00, 0x00]
  const HEADER: seq<byte> := [0xAA, 0x55]
  const TYPE_SCREENSHOT: byte := 0x01
  const TYPE_DIFF: byte := 0x02
  /** Number of 8-byte blocks in the bitmap: a diff block index must be below it. */
  const BLOCKS: nat := 128
  const CHUNK: nat := 9

  /** What the receiver reports after each frame it takes off the buffer:
      the frame_ready signal carries a copy of the bitmap, the status line
      names the kind of frame. */
  datatype Notice =
    | FullFrame(frame: seq<byte>)
    | DiffFrame(chunks: nat, frame: seq<byte>)
    | Ignored(msgType: byte, size: nat)

  /** Buffer left over, bitmap, and notices emitted, after draining a buffer. */
  datatype Decoded = Decoded(buffer: seq<byte>, frame: seq<byte>, notices: seq<Notice>)

  /** The bitmap after one frame has been dispatched, and its notice. */
  datatype Delivery = Delivery(frame: seq<byte>, notice: Notice)

  // ---------------------------------------------------------------------------
  // Header search

  predicate HeaderAt(buf: seq<byte>, i: int)
  {
    0 <= i && i + 1 < |buf| && buf[i] == HEADER[0] && buf[i + 1] == HEADER[1]
  }

  predicate NoHeader(buf: seq<byte>)
  {
    forall i :: 0 <= i < |buf| ==> !HeaderAt(buf, i)
  }

  /** bytearray.find(HEADER) starting at `from`: the first index at or after
      `from` where the header starts, or -1 if there is none. */
  function FindHeaderFrom(buf: seq<byte>, from: nat): (r: int)
    requires from <= |buf|
    ensures r == -1 || (from <= r && HeaderAt(buf, r))
    ensures forall i :: from <= i < (if r == -1 then |buf| else r) ==> !HeaderAt(buf, i)
    decreases |buf| - from
  {
    if from + 1 >= |buf| then -1
    else if buf[from] == HEADER[0] && buf[from + 1] == HEADER[1] then from
    else FindHeaderFrom(buf, from + 1)
  }

  function FindHeader(buf: seq<byte>): (r: int)
    ensures r == -1 <==> NoHeader(buf)
    ensures r != -1 ==> HeaderAt(buf, r) && forall i :: 0 <= i < r ==> !HeaderAt(buf, i)
  {
    FindHeaderFrom(buf, 0)
  }

  // ---------------------------------------------------------------------------
  // Diff payloads

  /** The bitmap with block `block` replaced by the 8 bytes of `data`. */
  function Patch(frame: seq<byte>, block: nat, data: seq<byte>): (r: seq<byte>)
    requires |frame| == FRAME_SIZE && block < BLOCKS && |data| == 8
    ensures |r| == FRAME_SIZE
    ensures forall k :: 0 <= k < FRAME_SIZE ==>
      r[k] == if block * 8 <= k < block * 8 + 8 then data[k - block * 8] else frame[k]
  {
    frame[..block * 8] + data + frame[block * 8 + 8..]
  }

  /** _apply_diff as a function: apply 9-byte chunks from the front, stopping
      at the first block index >= 128 or when fewer than 9 bytes remain. */
  function Diff(frame: seq<byte>, payload: seq<byte>): (r: seq<byte>)
    requires |frame| == FRAME_SIZE
    ensures |r| == FRAME_SIZE
    decreases |payload|
  {
    if |payload| < CHUNK || payload[0] >= BLOCKS then frame
    else Diff(Patch(frame, payload[0], payload[1..CHUNK]), payload[CHUNK..])
  }

  /** Byte `k` of the bitmap lies in a block that some applied chunk of `payload` patches. */
  predicate Written(payload: seq<byte>, k: int)
    decreases |payload|
  {
    |payload| >= CHUNK && payload[0] < BLOCKS &&
    (var block: nat := payload[0]; (block * 8 <= k < block * 8 + 8) || Written(payload[CHUNK..], k))
  }

  /** Every chunk of `q` is whole and names a block in range. */
  predicate ValidChunks(q: seq<byte>)
    decreases |q|
  {
    |q| % CHUNK == 0 && (|q| == 0 || (q[0] < BLOCKS && ValidChunks(q[CHUNK..])))
  }

  /** A byte that no applied chunk covers keeps its old value. */
  lemma {:induction false} DiffUntouched(frame: seq<byte>, payload: seq<byte>, k: int)
    requires |frame| == FRAME_SIZE && 0 <= k < FRAME_SIZE && !Written(payload, k)
    ensures Diff(frame, payload)[k] == frame[k]
    decreases |payload|
  {
    if |payload| >= CHUNK && payload[0] < BLOCKS {
      var f := Patch(frame, payload[0], payload[1..CHUNK]);
      DiffUntouched(f, payload[CHUNK..], k);
    }
  }

  /** A byte that some applied chunk covers does not depend on the old bitmap. */
  lemma {:induction false} DiffOverwrites(f: seq<byte>, g: seq<byte>, payload: seq<byte>, k: int)
    requires |f| == FRAME_SIZE && |g| == FRAME_SIZE && 0 <= k < FRAME_SIZE && Written(payload, k)
    ensures Diff(f, payload)[k] == Diff(g, payload)[k]
    decreases |payload|
  {
    var f' := Patch(f, payload[0], payload[1..CHUNK]);
    var g' := Patch(g, payload[0], payload[1..CHUNK]);
    var rest := payload[CHUNK..];
    if Written(rest, k) {
      DiffOverwrites(f', g', rest, k);
    } else {
      DiffUntouched(f', rest, k);
      DiffUntouched(g', rest, k);
    }
  }

  /** Applying whole, valid chunks and then the rest is applying everything:
      chunks are applied one after another, in payload order. */
  lemma {:induction false} DiffSplit(frame: seq<byte>, q: seq<byte>, rest: seq<byte>)
    requires |frame| == FRAME_SIZE && ValidChunks(q)
    ensures Diff(frame, q + rest) == Diff(Diff(frame, q), rest)
    decreases |q|
  {
    if |q| > 0 {
      var f := Patch(frame, q[0], q[1..CHUNK]);
      assert (q + rest)[1..CHUNK] == q[1..CHUNK];
      assert (q + rest)[CHUNK..] == q[CHUNK..] + rest;
      DiffSplit(f, q[CHUNK..], rest);
    } else {
      assert q + rest == rest;
    }
  }

  /** The first chunk naming a block >= 128 ends the diff: it and every later
      chunk of the payload are ignored. */
  lemma DiffStopsAtBadBlock(frame: seq<byte>, q: seq<byte>, block: byte, rest: seq<byte>)
    requires |frame| == FRAME_SIZE && ValidChunks(q) && block >= BLOCKS
    ensures Diff(frame, q + [block] + rest) == Diff(frame, q)
  {
    assert q + [block] + rest == q + ([block] + rest);
    DiffSplit(frame, q, [block] + rest);
  }

  /** A diff starting with a chunk for a block in range patches that block
      and goes on with the rest. */
  lemma DiffFirstChunk(frame: seq<byte>, i: byte, a: seq<byte>, rest: seq<byte>)
    requires |frame| == FRAME_SIZE && i < BLOCKS && |a| == 8
    ensures Diff(frame, [i] + a + rest) == Diff(Patch(frame, i, a), rest)
  {
    var p := [i] + a + rest;
    assert p[1..CHUNK] == a;
    assert p[CHUNK..] == rest;
  }

  /** Two chunks for blocks in range are two patches, in payload order. */
  lemma DiffTwoChunks(frame: seq<byte>, i: byte, a: seq<byte>, j: byte, b: seq<byte>)
    requires |frame| == FRAME_SIZE && i < BLOCKS && j < BLOCKS && |a| == 8 && |b| == 8
    ensures Diff(frame, [i] + a + [j] + b) == Patch(Patch(frame, i, a), j, b)
  {
    var f := Patch(frame, i, a);
    var g := Patch(f, j, b);
    var tail := [j] + b;
    assert [i] + a + [j] + b == [i] + a + tail;
    DiffFirstChunk(frame, i, a, tail);
    assert tail == [j] + b + [];
    DiffFirstChunk(f, j, b, []);
    assert Diff(g, []) == g;
  }

  /** A patch writes its block and keeps the bytes below and above it. */
  lemma PatchSlices(frame: seq<byte>, block: nat, data: seq<byte>)
    requires |frame| == FRAME_SIZE && block < BLOCKS && |data| == 8
    ensures var r := Patch(frame, block, data);
      && r[block * 8..block * 8 + 8] == data
      && r[..block * 8] == frame[..block * 8]
      && r[block * 8 + 8..] == frame[block * 8 + 8..]
  {
    var lo := frame[..block * 8];
    var hi := frame[block * 8 + 8..];
    assert Patch(frame, block, data) == lo + data + hi;
    assert (lo + data + hi)[..block * 8] == lo;
    assert (lo + data + hi)[block * 8..block * 8 + 8] == data;
    assert (lo + data + hi)[block * 8 + 8..] == hi;
  }

  /** A diff naming blocks 3 and 127 rewrites bytes [24, 32) and
      [1016, 1024) of the bitmap and nothing else. */
  lemma DiffTwoBlocks(frame: seq<byte>, a: seq<byte>, b: seq<byte>)
    requires |frame| == FRAME_SIZE && |a| == 8 && |b| == 8
    ensures var r := Diff(frame, [3] + a + [127] + b);
      && r[24..32] == a && r[1016..] == b
      && r[..24] == frame[..24] && r[32..1016] == frame[32..1016]
  {
    DiffTwoChunks(frame, 3, a, 127, b);
    var f := Patch(frame, 3, a);
    PatchSlices(frame, 3, a);
    PatchSlices(f, 127, b);
    TwoWritesSlices(frame, f, Patch(f, 127, b), a, b);
  }

  /** Slices of a bitmap written first at [24, 32) and then at [1016, 1024). */
  lemma TwoWritesSlices(frame: seq<byte>, f: seq<byte>, g: seq<byte>, a: seq<byte>, b: seq<byte>)
    requires |frame| == FRAME_SIZE && |f| == FRAME_SIZE && |g| == FRAME_SIZE
    requires f[24..32] == a && f[..24] == frame[..24] && f[32..] == frame[32..]
    requires g[1016..1024] == b && g[..1016] == f[..1016]
    ensures g[24..32] == a && g[1016..] == b
    ensures g[..24] == frame[..24] && g[32..1016] == frame[32..1016]
  {
    assert g[..1016][24..32] == g[24..32] && f[..1016][24..32] == f[24..32];
    assert g[..1016][..24] == g[..24] && f[..1016][..24] == f[..24];
    assert g[..1016][32..] == g[32..1016] && f[..1016][32..] == f[32..1016];
    assert f[32..][..984] == f[32..1016] && frame[32..][..984] == frame[32..1016];
  }

  // ---------------------------------------------------------------------------
  // Frame dispatch and the buffer-draining loop

  /** The dispatch on (type, size) of one complete frame. */
  function Deliver(frame: seq<byte>, msgType: byte, payload: seq<byte>): (h: Delivery)
    requires |frame| == FRAME_SIZE
    ensures |h.frame| == FRAME_SIZE
  {
    if msgType == TYPE_SCREENSHOT && |payload| == FRAME_SIZE then
      Delivery(payload, FullFrame(payload))
    else if msgType == TYPE_DIFF && |payload| % CHUNK == 0 then
      var f := Diff(frame, payload);
      Delivery(f, DiffFrame(|payload| / CHUNK, f))
    else
      Delivery(frame, Ignored(msgType, |payload|))
  }

  /** A screenshot of exactly 1024 bytes replaces the bitmap; a diff whose
      size is a multiple of 9 changes only bytes its applied chunks cover;
      anything else leaves the bitmap as it was and is reported as ignored.
      Every frame that changes the bitmap publishes a copy of the result. */
  lemma DeliverByType(frame: seq<byte>, msgType: byte, payload: seq<byte>)
    requires |frame| == FRAME_SIZE
    ensures var h := Deliver(frame, msgType, payload);
      && (h.notice.FullFrame? <==> msgType == TYPE_SCREENSHOT && |payload| == FRAME_SIZE)
      && (h.notice.FullFrame? ==> h.frame == payload)
      && (h.notice.DiffFrame? <==>
            !h.notice.FullFrame? && msgType == TYPE_DIFF && |payload| % CHUNK == 0)
      && (h.notice.DiffFrame? ==>
            h.notice.chunks == |payload| / CHUNK && h.frame == Diff(frame, payload) &&
            forall k :: 0 <= k < FRAME_SIZE && !Written(payload, k) ==> h.frame[k] == frame[k])
      && (h.notice.Ignored? ==> h.frame == frame && h.notice == Ignored(msgType, |payload|))
      && (!h.notice.Ignored? ==> h.notice.frame == h.frame)
  {
    forall k | 0 <= k < FRAME_SIZE && !Written(payload, k)
      ensures Diff(frame, payload)[k] == frame[k]
    {
      DiffUntouched(frame, payload, k);
    }
  }

  /** The big-endian payload size at bytes 3 and 4 of a frame. */
  function Size(b: seq<byte>): (n: nat)
    requires |b| >= 5
    ensures n < 0x1_0000
    ensures n / 256 == b[3] && n % 256 == b[4]
  {
    b[3] as int * 256 + b[4] as int
  }

  /** _consume_buffer as a function of the buffer and the bitmap. */
  function Consume(buf: seq<byte>, frame: seq<byte>): (d: Decoded)
    requires |frame| == FRAME_SIZE
    ensures |d.frame| == FRAME_SIZE
    decreases |buf|, 1
  {
    if |buf| < 5 then Decoded(buf, frame, [])
    else
      var hdr := FindHeader(buf);
      if hdr < 0 then Decoded(buf[|buf| - 1..], frame, [])
      else Framed(buf[hdr..], frame)
  }

  /** The rest of _consume_buffer once the buffer starts at a header. */
  function Framed(b: seq<byte>, frame: seq<byte>): (d: Decoded)
    requires |frame| == FRAME_SIZE
    ensures |d.frame| == FRAME_SIZE
    decreases |b|, 0
  {
    if |b| < 5 || |b| < 5 + Size(b) then Decoded(b, frame, [])
    else
      var h := Deliver(frame, b[2], b[5..5 + Size(b)]);
      var rest := Consume(b[5 + Size(b)..], h.frame);
      Decoded(rest.buffer, rest.frame, [h.notice] + rest.notices)
  }

  /** One step of Framed on a buffer that holds a complete frame. */
  lemma FramedStep(b: seq<byte>, frame: seq<byte>, msgType: byte, payload: seq<byte>, rest: seq<byte>)
    requires |frame| == FRAME_SIZE && |b| >= 5 && |b| >= 5 + Size(b)
    requires msgType == b[2] && payload == b[5..5 + Size(b)] && rest == b[5 + Size(b)..]
    ensures var h := Deliver(frame, msgType, payload);
            var d := Consume(rest, h.frame);
            Framed(b, frame) == Decoded(d.buffer, d.frame, [h.notice] + d.notices)
  {
  }

  /** The bytes of one frame on the wire. */
  function Encode(msgType: byte, payload: seq<byte>): (s: seq<byte>)
    requires |payload| < 0x1_0000
    ensures |s| == 5 + |payload| && Size(s) == |payload|
  {
    HEADER + [msgType, |payload| / 256, |payload| % 256] + payload
  }

  /** Fewer than 5 bytes, or a header followed by fewer bytes than the frame
      announces, is left in the buffer untouched for the next read. */
  lemma WaitsForMoreData(buf: seq<byte>, frame: seq<byte>)
    requires |frame| == FRAME_SIZE
    requires |buf| < 5 || (HeaderAt(buf, 0) && |buf| < 5 + Size(buf))
    ensures Consume(buf, frame) == Decoded(buf, frame, [])
  {
    if |buf| >= 5 {
      assert FindHeader(buf) == 0;
      assert buf[0..] == buf;
    }
  }

  /** With 5 or more bytes and no header anywhere, only the last byte is kept,
      since it may be the first half of a header split across reads. */
  lemma KeepsLastByteWithoutHeader(buf: seq<byte>, frame: seq<byte>)
    requires |frame| == FRAME_SIZE && |buf| >= 5 && NoHeader(buf)
    ensures Consume(buf, frame) == Decoded([buf[|buf| - 1]], frame, [])
  {
    assert buf[|buf| - 1..] == [buf[|buf| - 1]];
  }

  /** Bytes before a header are discarded: what follows is parsed as if the
      junk had never been received, and when fewer than 5 bytes are left the
      call stops with just those in the buffer. */
  lemma {:induction false} SkipsJunk(junk: seq<byte>, buf: seq<byte>, frame: seq<byte>)
    requires |frame| == FRAME_SIZE && NoHeader(junk) && HeaderAt(buf, 0) && |junk| + |buf| >= 5
    ensures Consume(junk + buf, frame) == Consume(buf, frame)
    ensures |buf| < 5 ==> Consume(junk + buf, frame) == Decoded(buf, frame, [])
  {
    var s := junk + buf;
    assert HeaderAt(s, |junk|);
    forall i | 0 <= i < |junk| ensures !HeaderAt(s, i) {
      if i + 1 < |junk| {
        assert !HeaderAt(junk, i);
      } else {
        assert s[i + 1] == buf[0];
      }
    }
    assert FindHeader(s) == |junk|;
    assert s[|junk|..] == buf;
    if |buf| >= 5 {
      assert FindHeader(buf) == 0;
      assert buf[0..] == buf;
    }
  }

  /** A complete frame at the front of the buffer is removed, exactly 5 + size
      bytes, dispatched, and the rest of the buffer is drained after it. */
  lemma DrainsFrame(msgType: byte, payload: seq<byte>, rest: seq<byte>, frame: seq<byte>)
    requires |frame| == FRAME_SIZE && |payload| < 0x1_0000
    ensures var h := Deliver(frame, msgType, payload);
            var d := Consume(rest, h.frame);
            Consume(Encode(msgType, payload) + rest, frame) ==
              Decoded(d.buffer, d.frame, [h.notice] + d.notices)
  {
    var s := Encode(msgType, payload) + rest;
    assert HeaderAt(s, 0);
    assert FindHeader(s) == 0;
    assert s[0..] == s;
    assert Size(s) == |payload|;
    assert s[5..5 + |payload|] == payload;
    assert s[5 + |payload|..] == rest;
  }

  /** What a call leaves behind is never a complete frame: a second call on
      the same state does nothing. */
  lemma {:induction false} ConsumeIsIdempotent(buf: seq<byte>, frame: seq<byte>)
    requires |frame| == FRAME_SIZE
    ensures var d := Consume(buf, frame);
            Consume(d.buffer, d.frame) == Decoded(d.buffer, d.frame, [])
    decreases |buf|
  {
    if |buf| >= 5 {
      var hdr := FindHeader(buf);
      if hdr >= 0 {
        var b := buf[hdr..];
        assert HeaderAt(b, 0);
        if |b| < 5 || |b| < 5 + Size(b) {
          WaitsForMoreData(b, frame);
        } else {
          var h := Deliver(frame, b[2], b[5..5 + Size(b)]);
          ConsumeIsIdempotent(b[5 + Size(b)..], h.frame);
        }
      }
    }
  }

  // ---------------------------------------------------------------------------
  // Reads arriving in arbitrary pieces

  /** The decoder after receiving `chunks` one read at a time (poll only
      consumes when a read returned data). */
  function Feed(buf: seq<byte>, frame: seq<byte>, chunks: seq<seq<byte>>): (d: Decoded)
    requires |frame| == FRAME_SIZE
    ensures |d.frame| == FRAME_SIZE
    decreases |chunks|
  {
    if chunks == [] then Decoded(buf, frame, [])
    else if chunks[0] == [] then Feed(buf, frame, chunks[1..])
    else
      var d := Consume(buf + chunks[0], frame);
      var e := Feed(d.buffer, d.frame, chunks[1..]);
      Decoded(e.buffer, e.frame, d.notices + e.notices)
  }

  function Flatten(chunks: seq<seq<byte>>): seq<byte>
    decreases |chunks|
  {
    if chunks == [] then [] else chunks[0] + Flatten(chunks[1..])
  }

  /** A proper prefix of a frame is held in the buffer without effect. */
  lemma PrefixWaits(msgType: byte, payload: seq<byte>, q: seq<byte>, frame: seq<byte>)
    requires |frame| == FRAME_SIZE && |payload| < 0x1_0000
    requires q < Encode(msgType, payload)
    ensures Consume(q, frame) == Decoded(q, frame, [])
  {
    var s := Encode(msgType, payload);
    if |q| >= 5 {
      assert q[0] == s[0] && q[1] == s[1] && q[3] == s[3] && q[4] == s[4];
      WaitsForMoreData(q, frame);
    }
  }

  /** However one frame is split across reads, it is decoded exactly once,
      with one notice, when its last byte arrives, and nothing is left over. */
  lemma {:induction false} SplitFrameDecodedOnce(
    msgType: byte, payload: seq<byte>, q: seq<byte>, chunks: seq<seq<byte>>, frame: seq<byte>)
    requires |frame| == FRAME_SIZE && |payload| < 0x1_0000
    requires q + Flatten(chunks) == Encode(msgType, payload) && q != Encode(msgType, payload)
    ensures var h := Deliver(frame, msgType, payload);
            Feed(q, frame, chunks) == Decoded([], h.frame, [h.notice])
    decreases |chunks|
  {
    var s := Encode(msgType, payload);
    var h := Deliver(frame, msgType, payload);
    if chunks == [] {
      assert false;
    } else {
      assert q + chunks[0] + Flatten(chunks[1..]) == s;
      if chunks[0] == [] {
        assert q + Flatten(chunks[1..]) == s;
        SplitFrameDecodedOnce(msgType, payload, q, chunks[1..], frame);
      } else if q + chunks[0] == s {
        DrainsFrame(msgType, payload, [], frame);
        assert s + [] == s;
        assert Flatten(chunks[1..]) == [];
        FlattenEmpty(chunks[1..]);
        FeedEmpty([], h.frame, chunks[1..]);
      } else {
        assert q + chunks[0] < s;
        PrefixWaits(msgType, payload, q + chunks[0], frame);
        assert (q + chunks[0]) + Flatten(chunks[1..]) == s;
        SplitFrameDecodedOnce(msgType, payload, q + chunks[0], chunks[1..], frame);
      }
    }
  }

  lemma {:induction false} FlattenEmpty(chunks: seq<seq<byte>>)
    requires Flatten(chunks) == []
    ensures forall i :: 0 <= i < |chunks| ==> chunks[i] == []
    decreases |chunks|
  {
    if chunks != [] {
      FlattenEmpty(chunks[1..]);
      forall i | 0 < i < |chunks| ensures chunks[i] == [] {
        assert chunks[i] == chunks[1..][i - 1];
      }
    }
  }

  lemma {:induction false} FeedEmpty(buf: seq<byte>, frame: seq<byte>, chunks: seq<seq<byte>>)
    requires |frame| == FRAME_SIZE && forall i :: 0 <= i < |chunks| ==> chunks[i] == []
    ensures Feed(buf, frame, chunks) == Decoded(buf, frame, [])
    decreases |chunks|
  {
    if chunks != [] {
      FeedEmpty(buf, frame, chunks[1..]);
    }
  }

  /** A whole screenshot fed from an empty buffer in any number of reads
      yields exactly one full-frame notice carrying the 1024 bytes sent. */
  lemma ScreenshotInAnyPieces(payload: seq<byte>, chunks: seq<seq<byte>>, frame: seq<byte>)
    requires |frame| == FRAME_SIZE && |payload| == FRAME_SIZE
    requires Flatten(chunks) == Encode(TYPE_SCREENSHOT, payload)
    ensures Feed([], frame, chunks) == Decoded([], payload, [FullFrame(payload)])
  {
    assert [] + Flatten(chunks) == Flatten(chunks);
    SplitFrameDecodedOnce(TYPE_SCREENSHOT, payload, [], chunks, frame);
  }

  /** The decoder state `target` is what draining `buf` over the bitmap `f`
      yields after the notices `emitted` already given. */
  ghost predicate Tracks(target: Decoded, emitted: seq<Notice>, buf: seq<byte>, f: seq<byte>)
    requires |f| == FRAME_SIZE
  {
    var d := Consume(buf, f);
    target == Decoded(d.buffer, d.frame, emitted + d.notices)
  }

  /** Taking frames with notices `taken` off the buffer keeps the target. */
  lemma TracksStep(target: Decoded, emitted: seq<Notice>, b0: seq<byte>, f0: seq<byte>,
                   taken: seq<Notice>, b1: seq<byte>, f1: seq<byte>)
    requires |f0| == FRAME_SIZE && |f1| == FRAME_SIZE && Tracks(target, emitted, b0, f0)
    requires var d := Consume(b1, f1);
             Consume(b0, f0) == Decoded(d.buffer, d.frame, taken + d.notices)
    ensures Tracks(target, emitted + taken, b1, f1)
  {
    var d := Consume(b1, f1);
    assert emitted + (taken + d.notices) == (emitted + taken) + d.notices;
  }

  /** Once a round takes nothing, the state reached is the target. */
  lemma TracksDone(target: Decoded, emitted: seq<Notice>, b0: seq<byte>, f0: seq<byte>,
                   b1: seq<byte>, f1: seq<byte>)
    requires |f0| == FRAME_SIZE && |f1| == FRAME_SIZE && Tracks(target, emitted, b0, f0)
    requires Consume(b0, f0) == Decoded(b1, f1, [])
    ensures target == Decoded(b1, f1, emitted)
  {
    assert emitted + [] == emitted;
  }

  // ---------------------------------------------------------------------------
  // The receiver object

  /** K5Receiver's parsing state: the receive buffer, the bitmap, and the
      notices it has emitted so far. */
  class Receiver {
    var buffer: seq<byte>
    const frame: array<byte>
    var notices: seq<Notice>

    ghost predicate Valid()
      reads this
    {
      frame.Length == FRAME_SIZE
    }

    constructor ()
      ensures Valid() && fresh(frame)
      ensures buffer == [] && notices == [] && frame[..] == seq(FRAME_SIZE, _ => 0)
    {
      buffer := [];
      frame := new byte[FRAME_SIZE](_ => 0);
      notices := [];
    }

    /** The data path of poll: bytes read from the port are appended and drained. */
    method Ingest(data: seq<byte>)
      requires Valid()
      modifies this, frame
      ensures Valid()
      ensures var d := Feed(old(buffer), old(frame[..]), [data]);
              buffer == d.buffer && frame[..] == d.frame && notices == old(notices) + d.notices
    {
      if |data| > 0 {
        buffer := buffer + data;
        ConsumeBuffer();
      }
    }

    /** Drains every complete frame from the front of the buffer. */
    method ConsumeBuffer()
      requires Valid()
      modifies this, frame
      ensures Valid()
      ensures var d := Consume(old(buffer), old(frame[..]));
              buffer == d.buffer && frame[..] == d.frame && notices == old(notices) + d.notices
    {
      ghost var target := Consume(buffer, frame[..]);
      ghost var emitted: seq<Notice> := [];
      while true
        invariant Valid()
        invariant notices == old(notices) + emitted
        invariant Tracks(target, emitted, buffer, frame[..])
        decreases |buffer|
      {
        ghost var before, f0 := buffer, frame[..];
        var more, taken := Round();
        if !more {
          TracksDone(target, emitted, before, f0, buffer, frame[..]);
          break;
        }
        TracksStep(target, emitted, before, f0, taken, buffer, frame[..]);
        emitted := emitted + taken;
      }
    }

    /** One iteration of the loop of _consume_buffer: either takes a complete
        frame off the buffer and dispatches it (more is true), or leaves the
        buffer as the call leaves it. */
    method Round() returns (more: bool, ghost taken: seq<Notice>)
      requires Valid()
      modifies this, frame
      ensures Valid()
      ensures more ==> |buffer| <= old(|buffer|) - 5
      ensures notices == old(notices) + taken
      ensures var d := Consume(buffer, frame[..]);
              more ==> Consume(old(buffer), old(frame[..])) == Decoded(d.buffer, d.frame, taken + d.notices)
      ensures !more ==> taken == [] &&
                        Consume(old(buffer), old(frame[..])) == Decoded(buffer, frame[..], [])
    {
      var ready := Resync();
      if !ready {
        return false, [];
      }
      more, taken := TakeFrame();
    }

    /** The first half of a loop iteration: gives up when fewer than 5 bytes
        are buffered, drops all but the last byte when there is no header,
        and otherwise discards what precedes the first header. */
    method Resync() returns (ready: bool)
      requires Valid()
      modifies this`buffer
      ensures |buffer| <= old(|buffer|)
      ensures ready ==> |buffer| >= 5 && HeaderAt(buffer, 0)
      ensures ready ==> Consume(old(buffer), frame[..]) == Framed(buffer, frame[..])
      ensures !ready ==> Consume(old(buffer), frame[..]) == Decoded(buffer, frame[..], [])
    {
      if |buffer| < 5 {
        return false;
      }
      ghost var start := buffer;
      var hdr := FindHeader(buffer);
      if hdr < 0 {
        // keep the last byte: it may be the first half of a split header
        buffer := buffer[|buffer| - 1..];
        return false;
      }
      if hdr > 0 {
        buffer := buffer[hdr..];
        if |buffer| < 5 {
          return false;
        }
      }
      assert buffer == start[hdr..] by { assert start[0..] == start; }
      return true;
    }

    /** With the buffer starting at a header: if the whole frame is buffered,
        removes it and dispatches it (more is true); otherwise changes nothing. */
    method TakeFrame() returns (more: bool, ghost taken: seq<Notice>)
      requires Valid() && |buffer| >= 5
      modifies this, frame
      ensures Valid()
      ensures more ==> |buffer| <= old(|buffer|) - 5
      ensures notices == old(notices) + taken
      ensures !more ==> buffer == old(buffer) && frame[..] == old(frame[..]) && taken == []
      ensures var d := Consume(buffer, frame[..]);
              more ==> Framed(old(buffer), old(frame[..])) == Decoded(d.buffer, d.frame, taken + d.notices)
      ensures !more ==> Framed(buffer, frame[..]) == Decoded(buffer, frame[..], [])
    {
      ghost var start, f0 := buffer, frame[..];
      var msgType := buffer[2];
      var size := buffer[3] as int * 256 + buffer[4] as int;
      var total := 5 + size;
      if |buffer| < total {
        return false, [];
      }
      var payload := buffer[5..total];
      buffer := buffer[total..];
      ghost var h := Deliver(f0, msgType, payload);
      Dispatch(msgType, payload);
      assert frame[..] == h.frame;
      FramedStep(start, f0, msgType, payload, buffer);
      return true, [h.notice];
    }

    /** Handles one complete frame taken off the buffer. */
    method Dispatch(msgType: byte, payload: seq<byte>)
      requires Valid()
      modifies this`notices, frame
      ensures var h := Deliver(old(frame[..]), msgType, payload);
              frame[..] == h.frame && notices == old(notices) + [h.notice]
    {
      var size := |payload|;
      if msgType == TYPE_SCREENSHOT && size == FRAME_SIZE {
        forall k | 0 <= k < FRAME_SIZE {
          frame[k] := payload[k];
        }
        assert frame[..] == payload;
        notices := notices + [FullFrame(frame[..])];
      } else if msgType == TYPE_DIFF && size % CHUNK == 0 {
        ApplyDiff(payload);
        notices := notices + [DiffFrame(size / CHUNK, frame[..])];
      } else {
        notices := notices + [Ignored(msgType, size)];
      }
    }

    /** Patches the bitmap with the chunks of a diff payload. */
    method ApplyDiff(payload: seq<byte>)
      requires Valid()
      modifies frame
      ensures frame[..] == Diff(old(frame[..]), payload)
    {
      var i := 0;
      while i + CHUNK <= |payload|
        invariant 0 <= i <= |payload|
        invariant Diff(frame[..], payload[i..]) == Diff(old(frame[..]), payload)
      {
        var block: nat := payload[i];
        i := i + 1;
        if block >= BLOCKS {
          break;
        }
        ghost var before := frame[..];
        forall j | 0 <= j < 8 {
          frame[block * 8 + j] := payload[i + j];
        }
        assert frame[..] == Patch(before, block, payload[i..i + 8]);
        assert payload[i - 1..][1..CHUNK] == payload[i..i + 8];
        assert payload[i - 1..][CHUNK..] == payload[i + 8..];
        i := i + 8;
      }
    }
  }
}

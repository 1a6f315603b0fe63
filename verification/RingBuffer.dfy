/**
 The ring buffer and its cursors over a byte array, proved against the log of all frames appended.
 The checksum is an arbitrary function of the payload.
 */
module RingBuffer {
  import opened Arithmetic
  import opened RingFrames
  import opened RingLog

  type Word = x: int | 0 <= x < TWO_TO_32

  datatype Appended = Sequence(n: nat) | AppendFailed(error: Error)
  datatype ReadResult = Got(frame: Frame, next: nat) | ReadFailed(error: Error)
  datatype NextResult = Next(frame: Frame) | NoFrame | NextFailed(error: Error)

  // ---- Frames in the buffer ----

  function HeaderFor(crc: seq<Byte> -> Word, k: nat, payload: seq<Byte>): Header {
    Header(MAGIC, (k + 1) % TWO_TO_64, |payload| % TWO_TO_32, crc(payload), 0)
  }

  ghost predicate Headers(crc: seq<Byte> -> Word, frames: seq<Frame>) {
    forall k :: 0 <= k < |frames| ==> frames[k].header == HeaderFor(crc, k, frames[k].payload)
  }

  /** Lengths and sequence numbers have not wrapped around. */
  ghost predicate Fits(frames: seq<Frame>) {
    |frames| < TWO_TO_64 - 1 && forall k :: 0 <= k < |frames| ==> |frames[k].payload| < TWO_TO_32
  }

  function FrameAt(d: seq<Byte>, offset: nat, crc: seq<Byte> -> Word): ReadResult
    requires |d| > 0
  {
    var h := DecodeHeader(ReadAt(d, offset, HEADER_SIZE));
    if h.Failed? then ReadFailed(h.error)
    else
      var payload := ReadAt(d, offset + HEADER_SIZE, h.header.length);
      if crc(payload) != h.header.checksum then ReadFailed(ChecksumFailed)
      else Got(Frame(h.header, payload), (offset + HEADER_SIZE + h.header.length) % |d|)
  }

  ghost predicate BadPayload(d: seq<Byte>, offset: nat, h: Header, crc: seq<Byte> -> Word)
    requires |d| > 0
  {
    crc(ReadAt(d, offset + HEADER_SIZE, h.length)) != h.checksum
  }

  /**
   Whatever the bytes are: a frame is returned exactly if they start with the magic number and the checksum of the
   payload is right, and then it is the frame they encode; otherwise the error says which of the two is wrong.
   */
  lemma {:induction false} ReadSound(d: seq<Byte>, offset: nat, crc: seq<Byte> -> Word)
    requires |d| > 0
    ensures var head, r := ReadAt(d, offset, HEADER_SIZE), FrameAt(d, offset, crc);
      && (head[0..4] != [0x54, 0x4D, 0x50, 0x52] <==> r == ReadFailed(InvalidMagic))
      && (r == ReadFailed(InvalidMagic) || r == ReadFailed(ChecksumFailed) || r.Got?)
      && (r.Got? ==> head == EncodeHeader(r.frame.header) && |r.frame.payload| == r.frame.header.length)
      && (r.Got? ==> ReadAt(d, offset + HEADER_SIZE, r.frame.header.length) == r.frame.payload)
      && (r.Got? ==> crc(r.frame.payload) == r.frame.header.checksum)
      && (r.Got? ==> r.next == (offset + HEADER_SIZE + r.frame.header.length) % |d|)
      && (r == ReadFailed(ChecksumFailed) ==>
        exists h :: HeaderOk(h) && head == EncodeHeader(h) && BadPayload(d, offset, h, crc))
  {
    var head := ReadAt(d, offset, HEADER_SIZE);
    DecodeSound(head);
    assert head[..22] == head;
  }

  /** At the start of a frame that is still in the buffer, that frame is read back. */
  lemma {:induction false} ReadsBack(d: seq<Byte>, crc: seq<Byte> -> Word, frames: seq<Frame>, k: nat, offset: nat)
    requires Window(d, Log(frames)) && Headers(crc, frames) && Fits(frames) && k < |frames|
    requires |Log(frames)| <= Start(frames, k) + |d| && offset == Start(frames, k) % |d|
    ensures FrameAt(d, offset, crc) == Got(frames[k], Start(frames, k + 1) % |d|)
  {
    FrameInLog(frames, k);
    HeaderFits(crc, frames, k);
    ReadsFrame(d, Log(frames), Start(frames, k), Start(frames, k + 1), frames[k], offset, crc);
  }

  /** A frame whose bytes stand at `start` in the log, with nothing of it overwritten yet, is read back. */
  lemma {:induction false} ReadsFrame(
      d: seq<Byte>, log: seq<Byte>, start: nat, next: nat, f: Frame, offset: nat, crc: seq<Byte> -> Word)
    requires Window(d, log) && next == start + HEADER_SIZE + |f.payload| && next <= |log| <= start + |d|
    requires log[start..next] == Bytes(f) && offset == start % |d|
    requires HeaderOk(f.header) && f.header.length == |f.payload| && f.header.checksum == crc(f.payload)
    ensures FrameAt(d, offset, crc) == Got(f, next % |d|)
  {
    FrameReads(d, log, start, next, f, offset);
    DecodesTo(d, offset, crc, f);
  }

  lemma {:induction false} HeaderFits(crc: seq<Byte> -> Word, frames: seq<Frame>, k: nat)
    requires Headers(crc, frames) && Fits(frames) && k < |frames|
    ensures HeaderOk(frames[k].header) && frames[k].header.length == |frames[k].payload|
    ensures frames[k].header.checksum == crc(frames[k].payload)
  {
    assert frames[k].header == HeaderFor(crc, k, frames[k].payload);
  }

  lemma {:induction false} FrameReads(d: seq<Byte>, log: seq<Byte>, start: nat, next: nat, f: Frame, offset: nat)
    requires Window(d, log) && next == start + HEADER_SIZE + |f.payload| && next <= |log| <= start + |d|
    requires log[start..next] == Bytes(f) && offset == start % |d|
    ensures ReadAt(d, offset, HEADER_SIZE) == EncodeHeader(f.header)
    ensures ReadAt(d, offset + HEADER_SIZE, |f.payload|) == f.payload
    ensures (offset + HEADER_SIZE + |f.payload|) % |d| == next % |d|
  {
    HeaderOfFrame(log, start, f);
    ModWrap(start, 0, |d|);
    ReadIsLog(d, log, start, HEADER_SIZE, offset);
    ModWrap(start, HEADER_SIZE, |d|);
    ReadIsLog(d, log, start + HEADER_SIZE, |f.payload|, offset + HEADER_SIZE);
    ModWrap(start, HEADER_SIZE + |f.payload|, |d|);
  }

  lemma {:induction false} DecodesTo(d: seq<Byte>, offset: nat, crc: seq<Byte> -> Word, f: Frame)
    requires |d| > 0 && HeaderOk(f.header) && f.header.length == |f.payload| && f.header.checksum == crc(f.payload)
    requires ReadAt(d, offset, HEADER_SIZE) == EncodeHeader(f.header)
    requires ReadAt(d, offset + HEADER_SIZE, |f.payload|) == f.payload
    ensures FrameAt(d, offset, crc) == Got(f, (offset + HEADER_SIZE + |f.payload|) % |d|)
  {
    HeaderRoundTrip(f.header, EncodeHeader(f.header));
  }

  lemma {:induction false} HeaderOfFrame(log: seq<Byte>, start: nat, f: Frame)
    requires start + HEADER_SIZE + |f.payload| <= |log| && log[start..start + HEADER_SIZE + |f.payload|] == Bytes(f)
    ensures log[start..start + HEADER_SIZE] == EncodeHeader(f.header)
    ensures log[start + HEADER_SIZE..start + HEADER_SIZE + |f.payload|] == f.payload
  {
    var b := log[start..start + HEADER_SIZE + |f.payload|];
    assert b[..HEADER_SIZE] == EncodeHeader(f.header) && b[HEADER_SIZE..] == f.payload;
    assert log[start..start + HEADER_SIZE] == b[..HEADER_SIZE];
    assert log[start + HEADER_SIZE..start + HEADER_SIZE + |f.payload|] == b[HEADER_SIZE..];
  }

  /** A position less than the capacity behind the writer differs from the writer's exactly when it is behind. */
  lemma {:induction false} BehindWriter(start: nat, total: nat, n: nat)
    requires n > 0 && start <= total < start + n
    ensures start % n == total % n <==> start == total
  {
    if start < total {
      ModDistinct(start, total, n);
    }
  }

  lemma {:induction false} StartBefore(frames: seq<Frame>, k: nat)
    requires k <= |frames|
    ensures Start(frames, k) <= |Log(frames)|
    ensures Start(frames, k) == |Log(frames)| <==> k == |frames|
  {
    if k < |frames| {
      FrameInLog(frames, k);
    } else {
      assert frames[..k] == frames;
    }
  }

  // ---- The buffer ----

  const MIN_CAPACITY := 2 * HEADER_SIZE
  const DEFAULT_CAPACITY := 65536

  /** The buffer and its counters are what the history of frames makes them. */
  ghost predicate Coherent(
      d: seq<Byte>, crc: seq<Byte> -> Word, frames: seq<Frame>, writePos: nat, nextSeq: nat, totalBytes: nat) {
    && Window(d, Log(frames)) && Headers(crc, frames)
    && writePos == |Log(frames)| % |d|
    && nextSeq == (|frames| + 1) % TWO_TO_64 && totalBytes == |Log(frames)| % TWO_TO_64
  }

  lemma {:induction false} AppendKeeps(
      d: seq<Byte>, crc: seq<Byte> -> Word, frames: seq<Frame>, f: Frame, writePos: nat, nextSeq: nat, totalBytes: nat)
    requires Headers(crc, frames) && f.header == HeaderFor(crc, |frames|, f.payload)
    requires Window(d, Log(frames) + EncodeHeader(f.header) + f.payload)
    requires writePos == |Log(frames) + EncodeHeader(f.header) + f.payload| % |d|
    requires nextSeq == ((|frames| + 1) % TWO_TO_64 + 1) % TWO_TO_64
    requires totalBytes == (|Log(frames)| % TWO_TO_64 + (HEADER_SIZE + |f.payload|)) % TWO_TO_64
    ensures Coherent(d, crc, frames + [f], writePos, nextSeq, totalBytes)
  {
    Extended(crc, frames, f);
    Counters(frames, f);
  }

  class Ring {
    const capacity: nat
    const data: array<Byte>
    const crc: seq<Byte> -> Word
    var writePos: nat
    var nextSeq: nat
    var totalBytes: nat
    ghost var frames: seq<Frame>

    ghost predicate Valid()
      reads this, data
    {
      capacity == data.Length > MIN_CAPACITY && Coherent(data[..], crc, frames, writePos, nextSeq, totalBytes)
    }

    constructor (capacity: int, crc: seq<Byte> -> Word)
      ensures Valid() && frames == [] && fresh(data) && this.crc == crc
      ensures this.capacity == if capacity <= MIN_CAPACITY then DEFAULT_CAPACITY else capacity
    {
      this.capacity := if capacity <= MIN_CAPACITY then DEFAULT_CAPACITY else capacity;
      this.crc := crc;
      data := new Byte[if capacity <= MIN_CAPACITY then DEFAULT_CAPACITY else capacity](_ => 0);
      writePos, nextSeq, totalBytes, frames := 0, 1, 0, [];
    }

    /** Appends one frame to the history, or refuses a frame larger than the buffer. */
    method Append(payload: seq<Byte>) returns (r: Appended)
      requires Valid()
      modifies this, data
      ensures Valid()
      ensures HEADER_SIZE + |payload| > capacity
        ==> r == AppendFailed(BufferFull) && frames == old(frames) && data[..] == old(data[..])
      ensures HEADER_SIZE + |payload| <= capacity ==>
        r == Sequence((|old(frames)| + 1) % TWO_TO_64)
          && frames == old(frames) + [Frame(HeaderFor(crc, |old(frames)|, payload), payload)]
    {
      var frameLen := HEADER_SIZE + |payload|;
      if frameLen > capacity {
        return AppendFailed(BufferFull);
      }
      var seqNo := nextSeq;
      nextSeq := (nextSeq + 1) % TWO_TO_64;
      var hdr := Header(MAGIC, seqNo, |payload| % TWO_TO_32, crc(payload), 0);
      WriteFrame(hdr, payload, Log(frames));
      totalBytes := (totalBytes + frameLen) % TWO_TO_64;
      AppendKeeps(data[..], crc, frames, Frame(hdr, payload), writePos, nextSeq, totalBytes);
      frames := frames + [Frame(hdr, payload)];
      r := Sequence(seqNo);
    }

    method WriteFrame(hdr: Header, payload: seq<Byte>, ghost log: seq<Byte>)
      requires capacity == data.Length > 0 && Window(data[..], log) && writePos == |log| % capacity
      modifies this`writePos, data
      ensures Window(data[..], log + EncodeHeader(hdr) + payload)
      ensures writePos == |log + EncodeHeader(hdr) + payload| % capacity
    {
      var hdrBuf := new Byte[HEADER_SIZE](_ => 0);
      Encode(hdr, hdrBuf);
      assert hdrBuf[..] == EncodeHeader(hdr);
      WriteBytes(hdrBuf[..], log);
      WriteBytes(payload, log + EncodeHeader(hdr));
    }

    /** Writes in chunks that stop at the end of the array. */
    method WriteBytes(p: seq<Byte>, ghost log: seq<Byte>)
      requires capacity == data.Length > 0 && Window(data[..], log) && writePos == |log| % capacity
      modifies this`writePos, data
      ensures Window(data[..], log + p) && writePos == |log + p| % capacity
    {
      var i := 0;
      assert log + p[..0] == log;
      while i < |p|
        invariant 0 <= i <= |p| && Window(data[..], log + p[..i]) && writePos == |log + p[..i]| % capacity
      {
        var avail := capacity - writePos;
        var chunk := if |p| - i > avail then avail else |p| - i;
        WriteChunk(data[..], log + p[..i], p[i..i + chunk]);
        Advance(|log + p[..i]|, chunk, capacity);
        assert log + p[..i] + p[i..i + chunk] == log + p[..i + chunk];
        CopyIn(writePos, p[i..i + chunk]);
        writePos := (writePos + chunk) % capacity;
        i := i + chunk;
      }
      assert p[..i] == p;
    }

    /** The built-in copy into a stretch of the array. */
    method CopyIn(pos: nat, c: seq<Byte>)
      requires pos + |c| <= data.Length
      modifies data
      ensures data[..] == Patch(old(data[..]), pos, c)
    {
      forall j | 0 <= j < |c| {
        data[pos + j] := c[j];
      }
    }

    method ReadBytes(offset: nat, n: nat) returns (dst: seq<Byte>)
      requires capacity == data.Length > 0
      ensures dst == ReadAt(data[..], offset, n)
    {
      dst := [];
      var pos := offset % capacity;
      var done := 0;
      ghost var d, at := data[..], offset;
      while done < n
        invariant 0 <= done <= n && at == offset + done && dst == ReadAt(d, offset, done) && pos == at % capacity
      {
        var avail := capacity - pos;
        var chunk := if n - done > avail then avail else n - done;
        ReadChunk(d, offset, done, pos, chunk);
        Advance(at, chunk, capacity);
        at := at + chunk;
        dst := dst + data[pos..pos + chunk];
        pos := (pos + chunk) % capacity;
        done := done + chunk;
      }
    }

    method ReadFrameAt(offset: nat) returns (r: ReadResult)
      requires capacity == data.Length > 0
      ensures r == FrameAt(data[..], offset, crc)
    {
      var hdrBuf := ReadBytes(offset, HEADER_SIZE);
      var hdr := DecodeHeader(hdrBuf);
      if hdr.Failed? {
        return ReadFailed(hdr.error);
      }
      var payload := ReadBytes(offset + HEADER_SIZE, hdr.header.length);
      if crc(payload) != hdr.header.checksum {
        return ReadFailed(ChecksumFailed);
      }
      r := Got(Frame(hdr.header, payload), (offset + HEADER_SIZE + hdr.header.length) % capacity);
    }
  }

  // ---- Cursors ----

  function NextOf(d: seq<Byte>, writePos: nat, offset: nat, lastSeq: nat, crc: seq<Byte> -> Word): NextResult
    requires |d| > 0
  {
    if offset == writePos then NoFrame
    else
      match FrameAt(d, offset, crc)
      case ReadFailed(e) => NextFailed(e)
      case Got(f, _) => if lastSeq > 0 && f.header.seqNo <= lastSeq then NextFailed(CursorExpired) else Next(f)
  }

  /** A cursor of position `offset` has the first `k` frames behind it and is less than the capacity behind the
   writer. */
  ghost predicate InStep(n: nat, frames: seq<Frame>, k: nat, offset: nat, lastSeq: nat) {
    && n > 0 && k <= |frames| && Fits(frames)
    && offset == Start(frames, k) % n && |Log(frames)| < Start(frames, k) + n && lastSeq <= k
  }

  /** In step, a cursor gets exactly the next frame, and nothing once it has caught up. */
  lemma {:induction false} InStepReads(
      d: seq<Byte>, crc: seq<Byte> -> Word, frames: seq<Frame>, k: nat, offset: nat, lastSeq: nat)
    requires Window(d, Log(frames)) && Headers(crc, frames) && InStep(|d|, frames, k, offset, lastSeq)
    ensures NextOf(d, |Log(frames)| % |d|, offset, lastSeq, crc) == if k == |frames| then NoFrame else Next(frames[k])
    ensures k < |frames| ==> FrameAt(d, offset, crc) == Got(frames[k], Start(frames, k + 1) % |d|)
    ensures k < |frames| ==> InStep(|d|, frames, k + 1, Start(frames, k + 1) % |d|, frames[k].header.seqNo)
  {
    StartBefore(frames, k);
    BehindWriter(Start(frames, k), |Log(frames)|, |d|);
    if k < |frames| {
      ReadsBack(d, crc, frames, k, offset);
      FrameInLog(frames, k);
      Numbered(crc, frames, k);
    }
  }

  /** An unread frame that is still whole in the buffer is delivered exactly if the writer has not lapped the cursor. */
  lemma {:induction false} DeliversIff(
      d: seq<Byte>, crc: seq<Byte> -> Word, frames: seq<Frame>, k: nat, offset: nat, lastSeq: nat)
    requires Window(d, Log(frames)) && Headers(crc, frames) && Fits(frames) && k < |frames| && lastSeq <= k
    requires |Log(frames)| <= Start(frames, k) + |d| && offset == Start(frames, k) % |d|
    ensures var r := NextOf(d, |Log(frames)| % |d|, offset, lastSeq, crc);
      && (r == Next(frames[k]) <==> |Log(frames)| < Start(frames, k) + |d|)
      && (r != Next(frames[k]) ==> r == NoFrame)
  {
    if |Log(frames)| < Start(frames, k) + |d| {
      InStepReads(d, crc, frames, k, offset, lastSeq);
    } else {
      ModLap(Start(frames, k), |d|);
    }
  }

  lemma {:induction false} ModLap(start: nat, n: nat)
    requires n > 0
    ensures (start + n) % n == start % n
  {
    UniqueRemainder(start + n, n, start / n + 1, start % n);
  }

  /** A single frame as long as the buffer is never delivered. */
  lemma {:induction false} FullBufferReadsEmpty(d: seq<Byte>, crc: seq<Byte> -> Word, f: Frame)
    requires Window(d, Log([f])) && Headers(crc, [f]) && Fits([f]) && |Bytes(f)| == |d|
    ensures NextOf(d, |Log([f])| % |d|, 0, 0, crc) == NoFrame
  {
    assert [f][..0] == [];
    Remainders(|d|);
    FrameInLog([f], 0);
    DeliversIff(d, crc, [f], 0, 0, 0);
  }

  /**
   The check on sequence numbers does not notice that a cursor was lapped: if the writer has left the start of a
   later frame at its position, it goes on there and the frames between are skipped.
   */
  lemma {:induction false} LappedSkips(
      d: seq<Byte>, crc: seq<Byte> -> Word, frames: seq<Frame>, k: nat, j: nat, offset: nat, lastSeq: nat)
    requires Window(d, Log(frames)) && Headers(crc, frames) && Fits(frames) && k < j < |frames| && lastSeq <= k
    requires offset == Start(frames, k) % |d| == Start(frames, j) % |d| && |Log(frames)| < Start(frames, j) + |d|
    ensures NextOf(d, |Log(frames)| % |d|, offset, lastSeq, crc) == Next(frames[j])
  {
    InStepReads(d, crc, frames, j, offset, lastSeq);
  }

  lemma {:induction false} EqualStarts(frames: seq<Frame>, size: nat, k: nat)
    requires k <= |frames| && forall i :: 0 <= i < |frames| ==> |Bytes(frames[i])| == size
    ensures Start(frames, k) == Times(size, k)
    decreases k
  {
    if k > 0 {
      EqualStarts(frames, size, k - 1);
      FrameInLog(frames, k - 1);
    }
  }

  lemma {:induction false} LapsAround(size: nat, slots: nat, k: nat, laps: nat)
    requires Times(size, slots) > 0
    ensures Times(slots, laps) >= 0
    ensures Times(size, k + Times(slots, laps)) % Times(size, slots) == Times(size, k) % Times(size, slots)
    decreases laps
  {
    if laps > 0 {
      LapsAround(size, slots, k, laps - 1);
      TimesAdd(size, k + Times(slots, laps - 1), slots);
      TimesMonotone(size, 0, k + Times(slots, laps - 1));
      ModLap(Times(size, k + Times(slots, laps - 1)), Times(size, slots));
    }
  }

  /** The frame of the writer's last lap that lies where frame `k` lay, or where the writer stands. */
  function SameSlot(k: nat, n: nat, slots: nat): (j: nat)
    requires k <= n && slots > 0
    ensures j <= n < j + slots
  {
    n - (n - k) % slots
  }

  lemma {:induction false} SlotIsLaps(k: nat, n: nat, slots: nat) returns (laps: nat)
    requires k <= n && slots > 0
    ensures SameSlot(k, n, slots) == k + Times(slots, laps)
  {
    laps := (n - k) / slots;
    TimesIsProduct(slots, laps);
    assert n - k == slots * laps + (n - k) % slots;
  }

  /**
   With frames of one size that divides the capacity, exactly what any cursor gets, however often it was lapped:
   the frame now in its slot, or nothing if the writer stands there, and never an error.
   */
  lemma {:induction false} EqualFrames(
      d: seq<Byte>, crc: seq<Byte> -> Word, frames: seq<Frame>, size: nat, slots: nat, k: nat, lastSeq: nat)
    requires Window(d, Log(frames)) && Headers(crc, frames) && Fits(frames)
    requires forall i :: 0 <= i < |frames| ==> |Bytes(frames[i])| == size
    requires slots > 0 && |d| == Times(size, slots) && lastSeq <= k <= |frames|
    ensures var j := SameSlot(k, |frames|, slots);
      NextOf(d, |Log(frames)| % |d|, Start(frames, k) % |d|, lastSeq, crc) ==
        if j == |frames| then NoFrame else Next(frames[j])
  {
    var j := SameSlot(k, |frames|, slots);
    var laps := SlotIsLaps(k, |frames|, slots);
    TimesMonotone(slots, 0, laps);
    EqualStarts(frames, size, k);
    EqualStarts(frames, size, j);
    EqualStarts(frames, size, |frames|);
    assert frames[..|frames|] == frames;
    LapsAround(size, slots, k, laps);
    if j < |frames| {
      TimesAdd(size, j, slots);
      TimesStrict(size, |frames|, j + slots);
      InStepReads(d, crc, frames, j, Start(frames, k) % |d|, lastSeq);
    }
  }

  lemma {:induction false} Numbered(crc: seq<Byte> -> Word, frames: seq<Frame>, k: nat)
    requires Headers(crc, frames) && Fits(frames) && k < |frames|
    ensures frames[k].header.seqNo == k + 1 && frames[k].header.flags == 0
  {
  }

  /** Appending leaves a cursor in step as long as the writer stays less than the capacity ahead. */
  lemma {:induction false} StaysInStep(n: nat, frames: seq<Frame>, f: Frame, k: nat, offset: nat, lastSeq: nat)
    requires InStep(n, frames, k, offset, lastSeq) && Fits(frames + [f])
    ensures InStep(n, frames + [f], k, offset, lastSeq) <==> |Log(frames + [f])| < Start(frames, k) + n
  {
    assert (frames + [f])[..k] == frames[..k];
  }

  class Cursor {
    const ring: Ring
    var offset: nat
    var lastSeq: nat

    constructor (ring: Ring, startOffset: nat)
      requires ring.capacity > 0
      ensures this.ring == ring && offset == startOffset % ring.capacity && lastSeq == 0
    {
      this.ring := ring;
      offset, lastSeq := startOffset % ring.capacity, 0;
    }

    ghost predicate At(k: nat)
      reads this, ring
    {
      InStep(ring.capacity, ring.frames, k, offset, lastSeq)
    }

    method TryNext(ghost k: nat) returns (r: NextResult)
      requires ring.Valid()
      modifies this
      ensures r == NextOf(ring.data[..], ring.writePos, old(offset), old(lastSeq), ring.crc)
      ensures !r.Next? ==> offset == old(offset) && lastSeq == old(lastSeq)
      ensures r.Next? ==> FrameAt(ring.data[..], old(offset), ring.crc) == Got(r.frame, offset)
      ensures r.Next? ==> lastSeq == r.frame.header.seqNo && (old(lastSeq) > 0 ==> lastSeq > old(lastSeq))
      ensures r == NoFrame <==> old(offset) == ring.writePos
      ensures var at := FrameAt(ring.data[..], old(offset), ring.crc);
        r.Next? <==>
          old(offset) != ring.writePos && at.Got? && (old(lastSeq) == 0 || at.frame.header.seqNo > old(lastSeq))
      ensures old(At(k)) ==> r == if k == |ring.frames| then NoFrame else Next(ring.frames[k])
      ensures old(At(k)) ==> At(if k == |ring.frames| then k else k + 1)
    {
      ghost var d := ring.data[..];
      if At(k) {
        InStepReads(d, ring.crc, ring.frames, k, offset, lastSeq);
      }
      var currentWritePos := ring.writePos;
      if offset == currentWritePos {
        return NoFrame;
      }
      var read := ring.ReadFrameAt(offset);
      if read.ReadFailed? {
        return NextFailed(read.error);
      }
      if lastSeq > 0 && read.frame.header.seqNo <= lastSeq {
        return NextFailed(CursorExpired);
      }
      offset := read.next;
      lastSeq := read.frame.header.seqNo;
      r := Next(read.frame);
    }
  }

  /**
   Reads from offset 0 until there is nothing more or an error, for at most `rounds` frames: the full history
   while it is shorter than the capacity, and nothing when it fills the buffer exactly.
   */
  method Snapshot(ring: Ring, rounds: nat) returns (frames: seq<Frame>)
    requires ring.Valid()
    ensures Fits(ring.frames) && |Log(ring.frames)| < ring.capacity && rounds >= |ring.frames| ==> frames == ring.frames
    ensures |Log(ring.frames)| == ring.capacity ==> frames == []
  {
    var cursor := new Cursor(ring, 0);
    Remainders(ring.capacity);
    ghost var fits := Fits(ring.frames) && |Log(ring.frames)| < ring.capacity;
    ghost var full := |Log(ring.frames)| == ring.capacity;
    if fits {
      FromTheStart(ring.capacity, ring.frames);
    }
    assert full ==> ring.writePos == cursor.offset;
    frames := Drain(cursor, rounds, fits);
  }

  lemma {:induction false} Remainders(n: nat)
    requires n > 0
    ensures 0 % n == 0 && n % n == 0
  {
    UniqueRemainder(0, n, 0, 0);
    UniqueRemainder(n, n, 1, 0);
  }

  lemma {:induction false} FromTheStart(n: nat, frames: seq<Frame>)
    requires n > 0 && Fits(frames) && |Log(frames)| < n && 0 % n == 0
    ensures InStep(n, frames, 0, 0, 0)
  {
    assert frames[..0] == [];
  }

  /** The loop of a snapshot. A cursor in step returns everything up to the writer. */
  method Drain(cursor: Cursor, rounds: nat, ghost fits: bool) returns (frames: seq<Frame>)
    requires cursor.ring.Valid() && (fits ==> cursor.At(0))
    modifies cursor
    ensures fits && rounds >= |cursor.ring.frames| ==> frames == cursor.ring.frames
    ensures old(cursor.offset) == cursor.ring.writePos ==> frames == []
  {
    frames := [];
    ghost var all := cursor.ring.frames;
    var k := 0;
    while k < rounds
      invariant 0 <= k <= rounds && |frames| == k
      invariant fits ==> k <= |all| && cursor.At(k)
      invariant fits ==> frames == all[..k]
      invariant old(cursor.offset) == cursor.ring.writePos ==> k == 0 && cursor.offset == old(cursor.offset)
    {
      var r := cursor.TryNext(k);
      if !r.Next? {
        return;
      }
      if fits {
        assert r == Next(all[k]);
        TakeSnoc(all, k);
      }
      frames := frames + [r.frame];
      k := k + 1;
    }
  }

  lemma {:induction false} TakeSnoc<T>(s: seq<T>, k: nat)
    requires k < |s|
    ensures s[..k] + [s[k]] == s[..k + 1]
  {
  }

  lemma {:induction false} Counters(frames: seq<Frame>, f: Frame)
    ensures ((|frames| + 1) % TWO_TO_64 + 1) % TWO_TO_64 == (|frames + [f]| + 1) % TWO_TO_64
    ensures (|Log(frames)| % TWO_TO_64 + (HEADER_SIZE + |f.payload|)) % TWO_TO_64 == |Log(frames + [f])| % TWO_TO_64
  {
    assert (frames + [f])[..|frames|] == frames;
    ModWrap(|frames| + 1, 1, TWO_TO_64);
    ModWrap(|Log(frames)|, HEADER_SIZE + |f.payload|, TWO_TO_64);
  }

  lemma {:induction false} Extended(crc: seq<Byte> -> Word, frames: seq<Frame>, f: Frame)
    requires Headers(crc, frames) && f.header == HeaderFor(crc, |frames|, f.payload)
    ensures Headers(crc, frames + [f])
    ensures Log(frames + [f]) == Log(frames) + EncodeHeader(f.header) + f.payload
  {
    assert (frames + [f])[..|frames|] == frames;
    assert Log(frames) + Bytes(f) == Log(frames) + EncodeHeader(f.header) + f.payload;
  }
}

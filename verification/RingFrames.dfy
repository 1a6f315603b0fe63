/**
 Frames of the ring log: the big-endian header and the byte log a history of frames amounts to.
 */
module RingFrames {
  import opened Arithmetic

  type Byte = b: int | 0 <= b < 256

  const MAGIC := 0x544D5052
  const HEADER_SIZE := 22
  const TWO_TO_32 := 0x1_0000_0000
  const TWO_TO_64 := 0x1_0000_0000_0000_0000

  datatype Header = Header(magic: nat, seqNo: nat, length: nat, checksum: nat, flags: nat)
  datatype Frame = Frame(header: Header, payload: seq<Byte>)
  datatype Error = InvalidMagic | CorruptHeader | ChecksumFailed | BufferFull | CursorExpired
  datatype Decoded = Ok(header: Header) | Failed(error: Error)

  // ---- Big-endian numbers ----

  /** The last `n` bytes of `x`, most significant first. */
  function BigEndian(x: nat, n: nat): (s: seq<Byte>)
    ensures |s| == n
  {
    if n == 0 then [] else BigEndian(x / 256, n - 1) + [x % 256]
  }

  function Value(s: seq<Byte>): nat {
    if s == [] then 0 else Value(s[..|s| - 1]) * 256 + s[|s| - 1]
  }

  function Pow256(n: nat): nat {
    if n == 0 then 1 else Pow256(n - 1) * 256
  }

  /** Decoding gives the number back, up to what does not fit. */
  lemma {:induction false} ValueBigEndian(x: nat, n: nat)
    requires x < Pow256(n)
    ensures Value(BigEndian(x, n)) == x
  {
    if n > 0 {
      ValueBigEndian(x / 256, n - 1);
      assert BigEndian(x, n)[..n - 1] == BigEndian(x / 256, n - 1);
    }
  }

  /** Every byte string is the big-endian form of its value. */
  lemma {:induction false} BigEndianValue(s: seq<Byte>)
    ensures Value(s) < Pow256(|s|) && BigEndian(Value(s), |s|) == s
  {
    if s != [] {
      var init, last := s[..|s| - 1], s[|s| - 1];
      BigEndianValue(init);
      assert Value(s) / 256 == Value(init) && Value(s) % 256 == last;
      assert s == init + [last];
    }
  }

  lemma {:induction false} DivideTwice(x: nat, p: nat)
    requires p > 0
    ensures x / 256 / p == x / (p * 256)
  {
    var y := x / 256;
    assert x == (p * 256) * (y / p) + (256 * (y % p) + x % 256) by {
      assert y == p * (y / p) + y % p;
      assert 256 * (p * (y / p)) == (p * 256) * (y / p);
    }
    UniqueQuotient(x, p * 256, y / p, 256 * (y % p) + x % 256);
  }

  lemma {:induction false} PowPositive(n: nat)
    ensures Pow256(n) > 0
  {
    if n > 0 {
      PowPositive(n - 1);
    }
  }

  /** The most significant byte comes first. */
  lemma {:induction false} MostSignificantFirst(x: nat, n: nat, i: nat)
    requires i < n
    ensures Pow256(n - 1 - i) > 0 && BigEndian(x, n)[i] == x / Pow256(n - 1 - i) % 256
  {
    PowPositive(n - 1 - i);
    if i < n - 1 {
      MostSignificantFirst(x / 256, n - 1, i);
      DivideTwice(x, Pow256(n - 2 - i));
    }
  }

  lemma {:induction false} Powers()
    ensures Pow256(2) == 0x1_0000 && Pow256(4) == TWO_TO_32 && Pow256(8) == TWO_TO_64
  {
    assert Pow256(2) == Pow256(1) * 256 && Pow256(1) == 256;
    assert Pow256(4) == Pow256(3) * 256 && Pow256(3) == Pow256(2) * 256;
    assert Pow256(8) == Pow256(7) * 256 && Pow256(7) == Pow256(6) * 256;
    assert Pow256(6) == Pow256(5) * 256 && Pow256(5) == Pow256(4) * 256;
  }

  // ---- Headers ----

  function EncodeHeader(h: Header): (s: seq<Byte>)
    ensures |s| == HEADER_SIZE
  {
    BigEndian(h.magic, 4) + BigEndian(h.seqNo, 8) + BigEndian(h.length, 4)
    + BigEndian(h.checksum, 4) + BigEndian(h.flags, 2)
  }

  function DecodeHeader(s: seq<Byte>): Decoded {
    if |s| < HEADER_SIZE then Failed(CorruptHeader)
    else if Value(s[0..4]) != MAGIC then Failed(InvalidMagic)
    else Ok(Header(Value(s[0..4]), Value(s[4..12]), Value(s[12..16]), Value(s[16..20]), Value(s[20..22])))
  }

  predicate HeaderOk(h: Header) {
    h.magic == MAGIC && h.seqNo < TWO_TO_64 && h.length < TWO_TO_32 && h.checksum < TWO_TO_32 && h.flags < 0x1_0000
  }

  lemma {:induction false} Slices(a: seq<Byte>, b: seq<Byte>, c: seq<Byte>, d: seq<Byte>, e: seq<Byte>, s: seq<Byte>)
    requires |a| == 4 && |b| == 8 && |c| == 4 && |d| == 4 && |e| == 2 && a + b + c + d + e <= s
    ensures |s| >= HEADER_SIZE && s[0..4] == a && s[4..12] == b && s[12..16] == c && s[16..20] == d && s[20..22] == e
  {
    var t := a + b + c + d + e;
    assert t[0..4] == a && t[4..12] == b && t[12..16] == c && t[16..20] == d && t[20..22] == e;
    assert s[0..4] == t[0..4] && s[4..12] == t[4..12] && s[12..16] == t[12..16] && s[16..20] == t[16..20]
      && s[20..22] == t[20..22];
  }

  /** Every header that fits its fields survives encoding, whatever follows it. */
  lemma {:induction false} HeaderRoundTrip(h: Header, s: seq<Byte>)
    requires HeaderOk(h) && EncodeHeader(h) <= s
    ensures DecodeHeader(s) == Ok(h)
  {
    Powers();
    Slices(BigEndian(h.magic, 4), BigEndian(h.seqNo, 8), BigEndian(h.length, 4), BigEndian(h.checksum, 4),
      BigEndian(h.flags, 2), s);
    ValueBigEndian(h.magic, 4);
    ValueBigEndian(h.seqNo, 8);
    ValueBigEndian(h.length, 4);
    ValueBigEndian(h.checksum, 4);
    ValueBigEndian(h.flags, 2);
  }

  /** Where the fields of a header lie. */
  lemma {:induction false} HeaderLayout(h: Header)
    ensures EncodeHeader(h)[0..4] == BigEndian(h.magic, 4) && EncodeHeader(h)[4..12] == BigEndian(h.seqNo, 8)
    ensures EncodeHeader(h)[12..16] == BigEndian(h.length, 4) && EncodeHeader(h)[16..20] == BigEndian(h.checksum, 4)
    ensures EncodeHeader(h)[20..22] == BigEndian(h.flags, 2)
  {
    Slices(BigEndian(h.magic, 4), BigEndian(h.seqNo, 8), BigEndian(h.length, 4), BigEndian(h.checksum, 4),
      BigEndian(h.flags, 2), EncodeHeader(h));
  }

  /** Bytes that decode are the encoding of what they decode to; they fail if too short or without the magic number. */
  lemma {:induction false} DecodeSound(s: seq<Byte>)
    ensures DecodeHeader(s) == Failed(CorruptHeader) <==> |s| < 22
    ensures DecodeHeader(s) == Failed(InvalidMagic) <==> |s| >= 22 && s[0..4] != [0x54, 0x4D, 0x50, 0x52]
    ensures DecodeHeader(s).Ok? ==> HeaderOk(DecodeHeader(s).header) && EncodeHeader(DecodeHeader(s).header) == s[..22]
  {
    Powers();
    ValueBigEndian(MAGIC, 4);
    MagicBytes();
    if |s| >= 22 {
      BigEndianValue(s[0..4]);
      BigEndianValue(s[4..12]);
      BigEndianValue(s[12..16]);
      BigEndianValue(s[16..20]);
      BigEndianValue(s[20..22]);
      assert s[..22] == s[0..4] + s[4..12] + s[12..16] + s[16..20] + s[20..22];
    }
  }

  lemma {:induction false} MagicBytes()
    ensures BigEndian(MAGIC, 4) == [0x54, 0x4D, 0x50, 0x52]
  {
    assert BigEndian(MAGIC, 4) == BigEndian(0x544D50, 3) + [0x52];
    assert BigEndian(0x544D50, 3) == BigEndian(0x544D, 2) + [0x50];
    assert BigEndian(0x544D, 2) == BigEndian(0x54, 1) + [0x4D];
    assert BigEndian(0x54, 1) == BigEndian(0, 0) + [0x54];
  }

  function Overwrite<T>(s: seq<T>, at: nat, b: seq<T>): (r: seq<T>)
    requires at + |b| <= |s|
    ensures |r| == |s|
  {
    s[..at] + b + s[at + |b|..]
  }

  lemma {:induction false} NextField<T>(done: seq<T>, s: seq<T>, b: seq<T>)
    requires |done| + |b| <= |s|
    ensures Overwrite(done + s[|done|..], |done|, b) == done + b + s[|done + b|..]
  {
  }

  /** Writes the header into the first bytes of `dst`. */
  method Encode(h: Header, dst: array<Byte>)
    requires dst.Length >= HEADER_SIZE
    modifies dst
    ensures dst[..] == EncodeHeader(h) + old(dst[HEADER_SIZE..])
  {
    ghost var s := dst[..];
    ghost var a, b := BigEndian(h.magic, 4), BigEndian(h.seqNo, 8);
    ghost var c, d := BigEndian(h.length, 4), BigEndian(h.checksum, 4);
    assert s == [] + s[0..];
    NextField([], s, a);
    PutBig(dst, 0, 4, h.magic);
    assert [] + a == a;
    NextField(a, s, b);
    PutBig(dst, 4, 8, h.seqNo);
    NextField(a + b, s, c);
    PutBig(dst, 12, 4, h.length);
    NextField(a + b + c, s, d);
    PutBig(dst, 16, 4, h.checksum);
    NextField(a + b + c + d, s, BigEndian(h.flags, 2));
    PutBig(dst, 20, 2, h.flags);
  }

  method PutBig(dst: array<Byte>, at: nat, n: nat, x: nat)
    requires at + n <= dst.Length
    modifies dst
    ensures dst[..] == Overwrite(old(dst[..]), at, BigEndian(x, n))
  {
    var s := BigEndian(x, n);
    forall i | 0 <= i < n {
      dst[at + i] := s[i];
    }
  }

  // ---- Histories ----

  function Bytes(f: Frame): seq<Byte> {
    EncodeHeader(f.header) + f.payload
  }

  /** All bytes ever written. */
  function Log(frames: seq<Frame>): seq<Byte> {
    if frames == [] then [] else Log(frames[..|frames| - 1]) + Bytes(frames[|frames| - 1])
  }

  /** Where frame `k` starts. */
  function Start(frames: seq<Frame>, k: nat): nat
    requires k <= |frames|
  {
    |Log(frames[..k])|
  }

  lemma {:induction false} LogPrefix(frames: seq<Frame>, k: nat)
    requires k <= |frames|
    ensures Log(frames[..k]) <= Log(frames)
  {
    var n := |frames|;
    if k < n {
      assert frames[..n - 1][..k] == frames[..k];
      LogPrefix(frames[..n - 1], k);
    } else {
      assert frames[..k] == frames;
    }
  }

  /** Frame `k` occupies its stretch of the log. */
  lemma {:induction false} FrameInLog(frames: seq<Frame>, k: nat)
    requires k < |frames|
    ensures Start(frames, k + 1) == Start(frames, k) + HEADER_SIZE + |frames[k].payload| <= |Log(frames)|
    ensures Log(frames)[Start(frames, k)..Start(frames, k + 1)] == Bytes(frames[k])
  {
    assert frames[..k + 1][..k] == frames[..k];
    LogPrefix(frames, k + 1);
    var before, upTo := Log(frames[..k]), Log(frames[..k + 1]);
    assert upTo == before + Bytes(frames[k]);
    assert Log(frames)[..|upTo|] == upTo;
    assert upTo[|before|..] == Bytes(frames[k]);
  }
}

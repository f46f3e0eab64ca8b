/** Frames on the serial link: how they are built, how they are cut out of the byte stream however the
    reads happen to split it, and what the receiver checks on them. */
module SerialLink {
  import opened Crc16

  type Bytes = seq<bv8>

  const MAGIC: bv8 := 0xAA
  const CMD_BIG_BUFFER: bv8 := 0x85
  const MAX_LEN: nat := 1024

  // ---------- frames ----------

  function IntOf(b: bv8): nat { b as int }

  /** The byte whose value is x. */
  function ByteOf(x: nat): (b: bv8)
    requires x < 256
    ensures IntOf(b) == x
  {
    if x == 0 then 0 else Successor(ByteOf(x - 1)); ByteOf(x - 1) + 1
  }

  lemma Successor(b: bv8)
    requires IntOf(b) < 255
    ensures IntOf(b + 1) == IntOf(b) + 1
  {
    assert b != 255;
    CountUp(b);
  }

  lemma CountUp(b: bv8)
    requires b != 255
    ensures (b + 1) as int == b as int + 1
  {
  }

  /** A 16-bit field. */
  function Length(hi: bv8, lo: bv8): nat { 256 * IntOf(hi) + IntOf(lo) }

  lemma LengthRoundTrip(x: nat)
    requires x < 0x1_0000
    ensures Length(ByteOf(x / 256), ByteOf(x % 256)) == x
  {
    hide ByteOf, IntOf;
  }

  /** Magic, length, that many bytes, checksum. */
  predicate IsFrame(f: Bytes) {
    |f| >= 4 && f[0] == MAGIC && |f| == 4 + Length(f[1], f[2])
  }

  function SumOf(s: Bytes): bv8 {
    if s == [] then 0 else SumOf(s[..|s| - 1]) + s[|s| - 1]
  }

  /** The additive checksum over everything between the length and the last byte. */
  predicate ChecksumOk(f: Bytes)
    requires |f| >= 4
  {
    SumOf(f[3..|f| - 1]) == f[|f| - 1]
  }

  function Combine(hi: bv8, lo: bv8): bv16 { High(hi) | (lo as bv16) }

  function LowOf(c: bv16): bv8 { (c & 0xFF) as bv8 }

  lemma CombineSplit(c: bv16)
    ensures Combine(HighByte(c), LowOf(c)) == c
  {
  }

  /** The CRC over the payload, in front of the last byte. */
  predicate CrcOk(f: Bytes)
    requires |f| >= 9
  {
    GenCrc(f[6..|f| - 3]) == Combine(f[|f| - 3], f[|f| - 2])
  }

  // ---------- the sender ----------

  method CalcChecksum(buf: array<bv8>, from: nat, len: nat) returns (sum: bv8)
    requires from + len <= buf.Length
    ensures sum == SumOf(buf[from..from + len])
  {
    sum := 0;
    for i := 0 to len
      invariant sum == SumOf(buf[from..from + i])
    {
      sum := sum + buf[from + i];
      assert buf[from..from + i + 1][..i] == buf[from..from + i];
    }
  }

  const MAX_FRAME: nat := 0xFFFF + 4

  /** `EncodeBigBuffer`: it builds a frame exactly when the size fits the 16-bit length field, and that frame
      passes both checks of the receiver. */
  method EncodeBigBuffer(table: array<bv16>, n: nat) returns (buf: array<bv8>)
    requires 12 <= n && IsTable(table[..], CRC_GEN_POLY)
    ensures fresh(buf) && buf.Length == n && buf[3] == CMD_BIG_BUFFER && CrcOk(buf[..])
    ensures IsFrame(buf[..]) <==> n <= MAX_FRAME
    ensures n <= MAX_FRAME ==> ChecksumOk(buf[..]) && (n >= 15 ==> Payload(buf[..]))
  {
    hide GenCrc, BlockCrc, IsTable, Length, SumOf, ByteOf, IntOf, Combine, LowOf, Crc16.HighByte, Payload, IsFrame;
    hide ChecksumOk, CrcOk;
    buf := FillFrame(n);
    ghost var g := buf[..];
    var crc := BlockCrcByTable(table, buf[6..n - 3], 0, false, CRC_GEN_POLY);
    buf[n - 3] := HighByte(crc);
    buf[n - 2] := LowOf(crc);
    ghost var h := buf[..];
    var sum := CalcChecksum(buf, 3, Covered(n));
    buf[n - 1] := sum;
    assert g[6..n - 3] == h[6..n - 3] && h[3..n - 1] == buf[3..n - 1];
    Encoded(g, h, buf[..], crc, sum);
  }

  /** g with the CRC stored is h, and h with the checksum stored is f. */
  ghost predicate Stored(g: Bytes, h: Bytes, f: Bytes, crc: bv16, sum: bv8) {
    && 12 <= |g| == |h| == |f|
    && (forall i :: 0 <= i < |g| - 3 ==> h[i] == g[i]) && h[|g| - 3] == HighByte(crc) && h[|g| - 2] == LowOf(crc)
    && (forall i :: 0 <= i < |g| - 1 ==> f[i] == h[i]) && f[|g| - 1] == sum
  }

  /** How many bytes the additive checksum of an encoded buffer covers. */
  function Covered(n: nat): (r: nat)
    requires n >= 12
    ensures 3 + r <= n - 1 && (n <= MAX_FRAME ==> r == n - 4)
  {
    (n - 4) % 0x1_0000
  }

  /** What storing the two checks makes of a filled frame. */
  lemma Encoded(g: Bytes, h: Bytes, f: Bytes, crc: bv16, sum: bv8)
    requires Stored(g, h, f, crc, sum) && g[0] == MAGIC && Length(g[1], g[2]) == Covered(|g|) && Payload(g)
    requires crc == BlockCrc(g[6..|g| - 3], 0, false, CRC_GEN_POLY) && sum == SumOf(h[3..3 + Covered(|g|)])
    ensures CrcOk(f) && f[3] == g[3] && (IsFrame(f) <==> |f| <= MAX_FRAME)
    ensures |f| <= MAX_FRAME ==> ChecksumOk(f) && (|f| >= 15 ==> Payload(f))
  {
    hide GenCrc, BlockCrc, Length, SumOf, ByteOf, IntOf, Combine, LowOf, Crc16.HighByte;
    var n := |g|;
    CombineSplit(crc);
    GenCrcIs(f[6..n - 3]);
    assert f[6..n - 3] == g[6..n - 3];
    if n <= MAX_FRAME {
      assert f[3..n - 1] == h[3..n - 1];
    }
  }

  lemma GenCrcIs(block: Bytes)
    ensures GenCrc(block) == BlockCrc(block, 0, false, CRC_GEN_POLY)
  {
  }

  /** What the frame carries besides its checks: frame number 1, start address 0, the size, and a ramp. */
  ghost predicate Payload(f: Bytes)
    requires |f| >= 12
  {
    && f[4] == 0x00 && f[5] == 0x01 && f[6] == f[7] == f[8] == f[9] == 0x00
    && Length(f[10], f[11]) == (|f| - 5) % 0x1_0000
    && forall i :: 12 <= i < |f| - 3 ==> f[i] == ByteOf((i - 12) % 256)
  }

  /** Header and payload. */
  method FillFrame(n: nat) returns (buf: array<bv8>)
    requires 12 <= n
    ensures fresh(buf) && buf.Length == n && buf[0] == MAGIC && buf[3] == CMD_BIG_BUFFER
    ensures Length(buf[1], buf[2]) == Covered(n) && Payload(buf[..])
  {
    hide ByteOf, Length, IntOf;
    buf := new bv8[n](_ => 0);
    FillHeader(buf);
    FillRamp(buf);
  }

  method FillHeader(buf: array<bv8>)
    requires 12 <= buf.Length
    modifies buf
    ensures buf[0] == MAGIC && Length(buf[1], buf[2]) == (buf.Length - 4) % 0x1_0000 && buf[3] == CMD_BIG_BUFFER
    ensures buf[4] == 0x00 && buf[5] == 0x01 && buf[6] == buf[7] == buf[8] == buf[9] == 0x00
    ensures Length(buf[10], buf[11]) == (buf.Length - 5) % 0x1_0000
  {
    hide ByteOf, Length, IntOf;
    var n := buf.Length;
    var len, size := (n - 4) % 0x1_0000, (n - 5) % 0x1_0000;
    LengthRoundTrip(len);
    LengthRoundTrip(size);
    var hi, lo, sizeHi, sizeLo := ByteOf(len / 256), ByteOf(len % 256), ByteOf(size / 256), ByteOf(size % 256);
    buf[0], buf[1], buf[2], buf[3] := MAGIC, hi, lo, CMD_BIG_BUFFER;
    buf[4], buf[5] := 0x00, 0x01;
    buf[6], buf[7], buf[8], buf[9] := 0x00, 0x00, 0x00, 0x00;
    buf[10], buf[11] := sizeHi, sizeLo;
  }

  method FillRamp(buf: array<bv8>)
    requires buf.Length >= 12
    modifies buf
    ensures forall k :: 0 <= k < 12 ==> buf[k] == old(buf[k])
    ensures forall k :: 12 <= k < buf.Length - 3 ==> buf[k] == ByteOf((k - 12) % 256)
  {
    hide ByteOf, IntOf;
    var i := 12;
    while i < buf.Length - 3
      invariant 12 <= i
      invariant forall k :: 0 <= k < 12 ==> buf[k] == old(buf[k])
      invariant forall k :: 12 <= k < i && k < buf.Length - 3 ==> buf[k] == ByteOf((k - 12) % 256)
    {
      buf[i] := ByteOf((i - 12) % 256);
      i := i + 1;
    }
  }

  // ---------- the checks ----------

  /** `isChecksumError` */
  method IsChecksumError(f: Bytes) returns (error: bool)
    requires |f| >= 4
    ensures error <==> !ChecksumOk(f)
  {
    var sum: bv8 := 0;
    for i := 3 to |f| - 1
      invariant sum == SumOf(f[3..i])
    {
      assert f[3..i + 1][..i - 3] == f[3..i];
      sum := sum + f[i];
    }
    error := sum != f[|f| - 1];
  }

  lemma SumOfMore(s: Bytes, b: bv8)
    ensures SumOf(s + [b]) == SumOf(s) + b
  {
    assert (s + [b])[..|s|] == s;
  }

  lemma SumOfTwo(a: bv8, b: bv8)
    ensures SumOf([a, b]) == a + b
  {
    assert SumOf([]) + a == a;
    hide SumOf;
    SumOfMore([], a);
    SumOfMore([a], b);
    assert [] + [a] == [a] && [a] + [b] == [a, b];
  }

  /** The 0x85 branch of `ProcessRecvBuffer`: the reply says 0 exactly when the recomputed CRC agrees. Its
      checksum is a constant, so a refusal does not pass the additive check. */
  method ReplyToBigBuffer(table: array<bv16>, f: Bytes) returns (reply: Bytes)
    requires |f| >= 9 && f[3] == CMD_BIG_BUFFER && IsTable(table[..], CRC_GEN_POLY)
    ensures |reply| == 6 && IsFrame(reply) && reply[3] == CMD_BIG_BUFFER
    ensures reply[4] == if CrcOk(f) then 0x00 else 0x01
    ensures ChecksumOk(reply) <==> CrcOk(f)
  {
    hide BlockCrc, IsTable, High;
    var received := Combine(f[|f| - 3], f[|f| - 2]);
    var computed := BlockCrcByTable(table, f[6..|f| - 3], 0, false, CRC_GEN_POLY);
    var verdict: bv8 := if computed != received then 0x01 else 0x00;
    reply := [0xAA, 0x00, 0x02, 0x85, verdict, 0x85];
    assert reply[3..5] == [0x85, verdict];
    SumOfTwo(0x85, verdict);
  }

  // ---------- the receiver, one byte at a time ----------

  /** The bytes of the frame under way, and the frames delivered. */
  datatype Stage = Stage(partial: Bytes, out: seq<Bytes>)

  predicate Complete(p: Bytes) {
    |p| >= 4 && |p| == 4 + Length(p[1], p[2])
  }

  function Feed(s: Stage, b: bv8): Stage {
    if s.partial == [] then
      if b == MAGIC then s.(partial := [b]) else s
    else
      var p := s.partial + [b];
      if Complete(p) then Stage([], s.out + [p]) else s.(partial := p)
  }

  function FeedAll(s: Stage, bs: Bytes): Stage {
    if bs == [] then s else Feed(FeedAll(s, bs[..|bs| - 1]), bs[|bs| - 1])
  }

  lemma {:induction false} FeedConcat(s: Stage, a: Bytes, b: Bytes)
    ensures FeedAll(s, a + b) == FeedAll(FeedAll(s, a), b)
    decreases |b|
  {
    hide Feed;
    if b == [] {
      assert a + b == a;
    } else {
      assert (a + b)[..|a + b| - 1] == a + b[..|b| - 1];
      FeedConcat(s, a, b[..|b| - 1]);
    }
  }

  /** Bytes that do not open a frame are dropped between frames. */
  lemma {:induction false} FeedNoise(s: Stage, noise: Bytes)
    requires s.partial == [] && forall i :: 0 <= i < |noise| ==> noise[i] != MAGIC
    ensures FeedAll(s, noise) == s
    decreases |noise|
  {
    if noise != [] {
      FeedNoise(s, noise[..|noise| - 1]);
    }
  }

  /** Any proper beginning of a frame is kept as it is. */
  lemma {:induction false} FeedBeginning(s: Stage, f: Bytes, k: nat)
    requires s.partial == [] && IsFrame(f) && 0 < k < |f|
    ensures FeedAll(s, f[..k]) == s.(partial := f[..k])
    decreases k
  {
    hide Length;
    assert f[..k][..k - 1] == f[..k - 1];
    if k == 1 {
      assert FeedAll(s, f[..0]) == s;
      assert f[..1] == [f[0]];
    } else {
      FeedBeginning(s, f, k - 1);
      assert f[..k - 1] + [f[k - 1]] == f[..k];
    }
  }

  lemma FeedFrame(s: Stage, f: Bytes)
    requires s.partial == [] && IsFrame(f)
    ensures FeedAll(s, f) == Stage([], s.out + [f])
  {
    hide Length;
    FeedBeginning(s, f, |f| - 1);
    assert f[..|f| - 1] + [f[|f| - 1]] == f;
  }

  /** Frames with noise in front of each and at the end. */
  function Stream(gaps: seq<Bytes>, frames: seq<Bytes>): Bytes
    requires |gaps| == |frames| + 1
  {
    if frames == [] then gaps[0]
    else
      Stream(gaps[..|frames|], frames[..|frames| - 1]) + (frames[|frames| - 1] + gaps[|frames|])
  }

  ghost predicate Quiet(gaps: seq<Bytes>) {
    forall g :: g in gaps ==> forall i :: 0 <= i < |g| ==> g[i] != MAGIC
  }

  /** A stream of frames is delivered frame by frame, unchanged and in order. */
  lemma {:induction false} StreamIsDelivered(gaps: seq<Bytes>, frames: seq<Bytes>, s: Stage)
    requires |gaps| == |frames| + 1 && Quiet(gaps) && s.partial == []
    requires forall f :: f in frames ==> IsFrame(f)
    ensures FeedAll(s, Stream(gaps, frames)) == Stage([], s.out + frames)
    decreases |frames|
  {
    hide IsFrame, Feed;
    if frames == [] {
      FeedNoise(s, gaps[0]);
      assert s.out + frames == s.out;
    } else {
      var n := |frames| - 1;
      var f, g := frames[n], gaps[n + 1];
      assert Quiet(gaps[..n + 1]) by { assert forall x :: x in gaps[..n + 1] ==> x in gaps; }
      StreamIsDelivered(gaps[..n + 1], frames[..n], s);
      var t := Stage([], s.out + frames[..n]);
      FeedConcat(s, Stream(gaps[..n + 1], frames[..n]), f + g);
      FeedConcat(t, f, g);
      FeedFrame(t, f);
      FeedNoise(Stage([], t.out + [f]), g);
      assert s.out + frames[..n] + [f] == s.out + frames by { assert frames[..n] + [f] == frames; }
    }
  }

  // ---------- the receiver, read by read ----------

  /** The declared length of the frame under way fits the buffer. */
  predicate Fits(p: Bytes) {
    |p| >= 3 ==> 4 + Length(p[1], p[2]) <= MAX_LEN
  }

  class Receiver {
    var state: nat
    var recvLen: nat
    var lenTemp: nat
    var last: nat
    var buf: array<bv8>
    var delivered: seq<Bytes>

    constructor ()
      ensures Valid() && fresh(buf) && Now() == Stage([], [])
    {
      buf := new bv8[MAX_LEN](_ => 0);
      state, recvLen, lenTemp, last, delivered := 0, 0, 0, 0, [];
    }

    /** How many bytes of the frame under way are in the buffer. */
    function Have(): nat
      reads this
    {
      if state == 3 then recvLen + last else recvLen
    }

    /** The four states are the lengths 0, 1, 2 and more of what has arrived. */
    ghost predicate Valid()
      reads this, buf
    {
      && buf.Length == MAX_LEN && Have() <= MAX_LEN
      && (state == 0 ==> recvLen == 0)
      && (state == 1 ==> recvLen == 1)
      && (state == 2 ==> recvLen == 2 && lenTemp == 256 * IntOf(buf[1]))
      && (state != 3 ==> last == 0)
      && (state == 3 ==> recvLen == 3 && last < lenTemp == Length(buf[1], buf[2]) + 1)
      && state <= 3
    }

    ghost function Now(): Stage
      requires Valid()
      reads this, buf
    {
      Stage(buf[..Have()], delivered)
    }

    /** How many bytes the next `read` asks for: never none. */
    function Wanted(): (n: nat)
      requires Valid()
      reads this, buf
      ensures n >= 1
    {
      if state == 0 then 1 else if state == 1 then 2 else if state == 2 then 1
      else lenTemp - last
    }

    method Store(chunk: Bytes, at: nat)
      requires at + |chunk| <= buf.Length
      modifies buf
      ensures buf[..at + |chunk|] == old(buf[..at]) + chunk
    {
      for i := 0 to |chunk|
        invariant buf[..at] == old(buf[..at])
        invariant forall k :: 0 <= k < i ==> buf[at + k] == chunk[k]
      {
        buf[at + i] := chunk[i];
      }
    }

    /** One pass of the loop of `RecvThread`, given what `read` returned. Whatever it returned, the effect is
        that of the bytes one by one. */
    method OnRead(chunk: Bytes)
      requires Valid() && 1 <= |chunk| <= Wanted() && Fits(Now().partial)
      modifies this, buf
      ensures Valid() && buf == old(buf)
      ensures Now() == FeedAll(old(Now()), chunk)
    {
      hide Feed, Length, IntOf;
      if state == 0 {
        OnMagic(chunk[0]);
        assert chunk == [chunk[0]];
        FeedOne(old(Now()), chunk[0]);
      } else if state == 1 {
        OnLength(chunk);
      } else if state == 2 {
        OnSecondLength(chunk[0]);
        assert chunk == [chunk[0]];
        FeedOne(old(Now()), chunk[0]);
      } else {
        OnBody(chunk);
      }
    }

    method OnMagic(b: bv8)
      requires Valid() && state == 0
      modifies this, buf
      ensures Valid() && buf == old(buf) && Now() == Feed(old(Now()), b)
    {
      buf[0] := b;
      if b == MAGIC {
        state, recvLen := 1, recvLen + 1;
        assert buf[..1] == [b];
      }
    }

    method OnLength(chunk: Bytes)
      requires Valid() && state == 1 && 1 <= |chunk| <= 2
      modifies this, buf
      ensures Valid() && buf == old(buf) && Now() == FeedAll(old(Now()), chunk)
    {
      hide IntOf;
      ghost var s := Now();
      Store(chunk, recvLen);
      if |chunk| == 1 {
        assert chunk == [chunk[0]];
        FeedOne(s, chunk[0]);
        assert buf[..2] == s.partial + chunk;
        assert buf[1] == buf[..2][1] == chunk[0];
        state, lenTemp, recvLen := 2, 256 * IntOf(buf[1]), recvLen + 1;
      } else {
        assert chunk == [chunk[0], chunk[1]];
        FeedTwo(s, chunk[0], chunk[1]);
        assert buf[..3] == s.partial + [chunk[0]] + [chunk[1]];
        state, lenTemp, recvLen := 3, 256 * IntOf(buf[1]) + IntOf(buf[2]) + 1, recvLen + 2;
      }
    }

    method OnSecondLength(b: bv8)
      requires Valid() && state == 2
      modifies this, buf
      ensures Valid() && buf == old(buf) && Now() == Feed(old(Now()), b)
    {
      hide IntOf;
      buf[recvLen] := b;
      assert buf[..3] == old(buf[..2]) + [b];
      assert buf[1] == old(buf[1]);
      state, lenTemp, recvLen := 3, lenTemp + IntOf(b) + 1, recvLen + 1;
    }

    method OnBody(chunk: Bytes)
      requires Valid() && state == 3 && 1 <= |chunk| <= lenTemp - last && Fits(Now().partial)
      modifies this, buf
      ensures Valid() && buf == old(buf) && Now() == FeedAll(old(Now()), chunk)
    {
      hide Feed, Length, IntOf;
      ghost var s := Now();
      assert s.partial[1] == buf[1] && s.partial[2] == buf[2];
      Store(chunk, recvLen + last);
      assert buf[1] == buf[..recvLen + last + |chunk|][1] == s.partial[1];
      assert buf[2] == buf[..recvLen + last + |chunk|][2] == s.partial[2];
      if |chunk| < lenTemp - last {
        FeedBody(s, chunk);
        last := last + |chunk|;
      } else {
        FeedLast(s, chunk);
        delivered := delivered + [buf[..recvLen + lenTemp]];
        state, recvLen, last := 0, 0, 0;
      }
    }

    /** A `read` that returns nothing, at the end of the input or on an error. Between frames and inside a header it
        changes nothing; inside a body the frame goes out as if it were complete. */
    method OnNothing()
      requires Valid() && Fits(Now().partial)
      modifies this
      ensures Valid() && buf == old(buf)
      ensures old(state) != 3 ==> Now() == old(Now())
      ensures old(state) == 3 ==> Now() == Stage([], old(delivered) + [buf[..4 + Length(buf[1], buf[2])]])
    {
      hide Length, IntOf;
      if state == 3 {
        delivered := delivered + [buf[..recvLen + lenTemp]];
        state, recvLen, last := 0, 0, 0;
      }
    }
  }

  /** More bytes of a frame whose length is known, short of its end. */
  lemma {:induction false} FeedBody(s: Stage, chunk: Bytes)
    requires |s.partial| >= 3 && |s.partial| + |chunk| < 4 + Length(s.partial[1], s.partial[2])
    ensures FeedAll(s, chunk) == s.(partial := s.partial + chunk)
    decreases |chunk|
  {
    hide Length;
    if chunk == [] {
      assert s.partial + chunk == s.partial;
    } else {
      FeedBody(s, chunk[..|chunk| - 1]);
      assert s.partial + chunk[..|chunk| - 1] + [chunk[|chunk| - 1]] == s.partial + chunk;
    }
  }

  /** The bytes up to the end of the frame. */
  lemma FeedLast(s: Stage, chunk: Bytes)
    requires |s.partial| >= 3 && chunk != [] && |s.partial| + |chunk| == 4 + Length(s.partial[1], s.partial[2])
    ensures FeedAll(s, chunk) == Stage([], s.out + [s.partial + chunk])
  {
    hide Length;
    FeedBody(s, chunk[..|chunk| - 1]);
    assert s.partial + chunk[..|chunk| - 1] + [chunk[|chunk| - 1]] == s.partial + chunk;
  }

  lemma FeedOne(s: Stage, b: bv8)
    ensures FeedAll(s, [b]) == Feed(s, b)
  {
    assert FeedAll(s, [b][..0]) == s;
  }

  lemma FeedTwo(s: Stage, a: bv8, b: bv8)
    ensures FeedAll(s, [a, b]) == Feed(Feed(s, a), b)
  {
    assert [a, b][..1] == [a];
    FeedOne(s, a);
  }

  // ---------- whole streams ----------

  /** At no point of the stream is a frame under way that would not fit the buffer. */
  ghost predicate AlwaysFits(s: Stage, stream: Bytes) {
    forall k :: 0 <= k <= |stream| ==> Fits(FeedAll(s, stream[..k]).partial)
  }

  lemma FitsAt(s: Stage, stream: Bytes, k: nat)
    requires AlwaysFits(s, stream) && k <= |stream|
    ensures Fits(FeedAll(s, stream[..k]).partial)
  {
  }

  /** The loop of `RecvThread` over a stream that `read` hands out in pieces of any size it likes. */
  method Receive(r: Receiver, stream: Bytes)
    requires r.Valid() && AlwaysFits(r.Now(), stream)
    modifies r, r.buf
    ensures r.Valid() && r.buf == old(r.buf)
    ensures r.Now() == FeedAll(old(r.Now()), stream)
  {
    hide Feed, FeedAll, Fits, AlwaysFits, Receiver.Valid, Receiver.Now, Receiver.Wanted;
    ghost var s := r.Now();
    var i := 0;
    NothingFed(s, stream);
    while i < |stream|
      invariant r.Valid() && r.buf == old(r.buf) && i <= |stream|
      invariant r.Now() == FeedAll(s, stream[..i])
    {
      var n :| 1 <= n <= |stream| - i && n <= r.Wanted();
      FitsAt(s, stream, i);
      FedMore(s, stream, i, n);
      r.OnRead(stream[i..i + n]);
      i := i + n;
    }
  }

  lemma NothingFed(s: Stage, stream: Bytes)
    ensures FeedAll(s, stream[..0]) == s && stream[..|stream|] == stream
  {
  }

  lemma FedMore(s: Stage, stream: Bytes, i: nat, n: nat)
    requires i + n <= |stream|
    ensures FeedAll(FeedAll(s, stream[..i]), stream[i..i + n]) == FeedAll(s, stream[..i + n])
  {
    FeedConcat(s, stream[..i], stream[i..i + n]);
    assert stream[..i] + stream[i..i + n] == stream[..i + n];
  }

  lemma FrameFits(s: Stage, f: Bytes, k: nat)
    requires s.partial == [] && IsFrame(f) && |f| <= MAX_LEN && k <= |f|
    ensures Fits(FeedAll(s, f[..k]).partial)
  {
    hide Length, Feed;
    if k == 0 {
      assert FeedAll(s, f[..0]) == s;
    } else if k < |f| {
      FeedBeginning(s, f, k);
    } else {
      assert f[..k] == f;
      FeedFrame(s, f);
    }
  }

  lemma {:induction false} FramesFit(gaps: seq<Bytes>, frames: seq<Bytes>, s: Stage, k: nat)
    requires |gaps| == |frames| + 1 && Quiet(gaps) && s.partial == []
    requires forall f :: f in frames ==> IsFrame(f) && |f| <= MAX_LEN
    requires k <= |Stream(gaps, frames)|
    ensures Fits(FeedAll(s, Stream(gaps, frames)[..k]).partial)
    decreases |frames|
  {
    hide IsFrame, FeedAll;
    if frames == [] {
      assert forall i :: 0 <= i < k ==> gaps[0][..k][i] == gaps[0][i] != MAGIC;
      FeedNoise(s, gaps[0][..k]);
    } else {
      var n := |frames| - 1;
      var f, g := frames[n], gaps[n + 1];
      var before := Stream(gaps[..n + 1], frames[..n]);
      assert Quiet(gaps[..n + 1]) by { assert forall x :: x in gaps[..n + 1] ==> x in gaps; }
      assert forall x :: x in frames[..n] ==> x in frames;
      if k <= |before| {
        FramesFit(gaps[..n + 1], frames[..n], s, k);
        assert Stream(gaps, frames)[..k] == before[..k];
      } else {
        StreamIsDelivered(gaps[..n + 1], frames[..n], s);
        var j, t := k - |before|, Stage([], s.out + frames[..n]);
        assert Stream(gaps, frames)[..k] == before + (f + g)[..j];
        FeedConcat(s, before, (f + g)[..j]);
        TailFits(t, f, g, j);
      }
    }
  }

  lemma TailFits(t: Stage, f: Bytes, g: Bytes, j: nat)
    requires t.partial == [] && IsFrame(f) && |f| <= MAX_LEN && j <= |f + g|
    requires forall i :: 0 <= i < |g| ==> g[i] != MAGIC
    ensures Fits(FeedAll(t, (f + g)[..j]).partial)
  {
    hide IsFrame, Feed;
    if j <= |f| {
      assert (f + g)[..j] == f[..j];
      FrameFits(t, f, j);
    } else {
      assert (f + g)[..j] == f + g[..j - |f|];
      FeedConcat(t, f, g[..j - |f|]);
      FeedFrame(t, f);
      FeedNoise(Stage([], t.out + [f]), g[..j - |f|]);
    }
  }

  /** A stream of frames of at most MAX_LEN bytes, with anything but the magic byte between them, comes out
      frame by frame whatever the reads return. */
  method ReceiveFrames(r: Receiver, gaps: seq<Bytes>, frames: seq<Bytes>)
    requires r.Valid() && r.Now().partial == []
    requires |gaps| == |frames| + 1 && Quiet(gaps)
    requires forall f :: f in frames ==> IsFrame(f) && |f| <= MAX_LEN
    modifies r, r.buf
    ensures r.Valid() && r.Now() == Stage([], old(r.delivered) + frames)
  {
    hide IsFrame, Feed, Fits, FeedAll, Stream, Quiet;
    ghost var s := r.Now();
    StreamIsDelivered(gaps, frames, s);
    assert AlwaysFits(s, Stream(gaps, frames)) by {
      forall k | 0 <= k <= |Stream(gaps, frames)| ensures Fits(FeedAll(s, Stream(gaps, frames)[..k]).partial) {
        FramesFit(gaps, frames, s, k);
      }
    }
    Receive(r, Stream(gaps, frames));
  }

  /** The whole link: frames of at most MAX_LEN bytes are encoded with the table the source builds, sent with any
      noise between them, received under any splitting, checked, and answered with an acceptance each. What is
      delivered is what the encoder promises: sound frames of these sizes, with their payload where it has room. */
  method Link(sizes: seq<nat>, gaps: seq<Bytes>)
    returns (r: Receiver, frames: seq<Bytes>, errors: seq<bool>, replies: seq<Bytes>)
    requires |gaps| == |sizes| + 1 && Quiet(gaps)
    requires forall i :: 0 <= i < |sizes| ==> 12 <= sizes[i] <= 1024
    ensures fresh(r) && |frames| == |errors| == |replies| == |sizes|
    ensures forall i :: 0 <= i < |sizes| ==> Encodes(frames[i], sizes[i])
    ensures r.delivered == frames
    ensures forall i :: 0 <= i < |sizes| ==> !errors[i] && |replies[i]| == 6 && replies[i][4] == 0x00
  {
    hide IsFrame, IsTable, ChecksumOk, CrcOk, Quiet, Payload, Receiver.Valid;
    var table := BuildTable(0x8005);
    GeneratorIs();
    frames := EncodeAll(table, sizes);
    r := new Receiver();
    ReceiveFrames(r, gaps, frames);
    errors, replies := CheckAll(table, r.delivered);
  }

  lemma GeneratorIs()
    ensures Low(Extend(0x8005)) == CRC_GEN_POLY
  {
  }

  method EncodeAll(table: array<bv16>, sizes: seq<nat>) returns (frames: seq<Bytes>)
    requires IsTable(table[..], CRC_GEN_POLY) && forall i :: 0 <= i < |sizes| ==> 12 <= sizes[i] <= MAX_LEN
    ensures |frames| == |sizes| && forall i :: 0 <= i < |frames| ==> Encodes(frames[i], sizes[i])
  {
    hide IsFrame, IsTable, ChecksumOk, CrcOk, Payload;
    frames := [];
    for i := 0 to |sizes|
      invariant |frames| == i && forall k :: 0 <= k < i ==> Encodes(frames[k], sizes[k])
    {
      var buf := EncodeBigBuffer(table, sizes[i]);
      frames := frames + [buf[..]];
    }
  }

  /** What the encoder promises of a frame of n bytes. */
  ghost predicate Encodes(f: Bytes, n: nat) {
    |f| == n && Sound(f) && (n >= 15 ==> Payload(f))
  }

  /** A frame that fits the receiver and passes both checks. */
  predicate Sound(f: Bytes) {
    9 <= |f| <= MAX_LEN && f[3] == CMD_BIG_BUFFER && IsFrame(f) && ChecksumOk(f) && CrcOk(f)
  }

  method CheckAll(table: array<bv16>, frames: seq<Bytes>) returns (errors: seq<bool>, replies: seq<Bytes>)
    requires IsTable(table[..], CRC_GEN_POLY) && forall i :: 0 <= i < |frames| ==> Sound(frames[i])
    ensures |errors| == |replies| == |frames|
    ensures forall i :: 0 <= i < |frames| ==> !errors[i] && |replies[i]| == 6 && replies[i][4] == 0x00
  {
    hide IsFrame, IsTable, ChecksumOk, CrcOk;
    errors, replies := [], [];
    for i := 0 to |frames|
      invariant |errors| == |replies| == i
      invariant forall k :: 0 <= k < i ==> !errors[k] && |replies[k]| == 6 && replies[k][4] == 0x00
    {
      var error := IsChecksumError(frames[i]);
      var reply := ReplyToBigBuffer(table, frames[i]);
      errors, replies := errors + [error], replies + [reply];
    }
  }
}

/** The CRC of a block is the remainder of the long division of the message, followed by sixteen zero
    bits, by the generator polynomial. */
module CrcDivision {
  import opened Crc16

  // ---------- long division ----------

  function One(bit: bool): bv16 { if bit then 1 else 0 }

  function TopBit(bit: bool): bv16 { if bit then 0x8000 else 0 }

  /** Brings the next bit of the dividend down and subtracts the generator if it fits. */
  function BringDown(r: bv16, bit: bool, poly: bv16): bv16 {
    if Top(r) then Xor(Append(r, bit), poly) else Append(r, bit)
  }

  function Append(r: bv16, bit: bool): bv16 { (r << 1) | One(bit) }

  function Remainder(r: bv16, bits: seq<bool>, poly: bv16): bv16
    decreases |bits|
  {
    if bits == [] then r else Remainder(BringDown(r, bits[0], poly), bits[1..], poly)
  }

  function Zeros(n: nat): seq<bool> {
    if n == 0 then [] else [false] + Zeros(n - 1)
  }

  predicate Msb(b: bv8) { b & 0x80 == 0x80 }

  function Shl8(b: bv8): bv8 { b << 1 }

  /** The first n bits of a byte, most significant first. */
  function BitsOf(b: bv8, n: nat): seq<bool>
    decreases n
  {
    if n == 0 then [] else [Msb(b)] + BitsOf(Shl8(b), n - 1)
  }

  function BlockBits(block: seq<bv8>): seq<bool> {
    if block == [] then [] else BlockBits(block[..|block| - 1]) + BitsOf(block[|block| - 1], 8)
  }

  // ---------- the same with the bits added at the top ----------

  function Direct(c: bv16, bits: seq<bool>, poly: bv16): bv16
    decreases |bits|
  {
    if bits == [] then c else Direct(Step(Xor(c, TopBit(bits[0])), poly), bits[1..], poly)
  }

  lemma BringDownIsStep(r: bv16, bit: bool, poly: bv16)
    ensures BringDown(r, bit, poly) == Xor(Step(r, poly), One(bit))
  {
    hide Xor, Shl, One, Append, Top;
    OrIsXor(r, bit);
    XorLaws(Shl(r), One(bit), poly);
    XorLaws(Shl(r), poly, One(bit));
    XorLaws(One(bit), poly, 0);
  }

  lemma OrIsXor(r: bv16, bit: bool)
    ensures Append(r, bit) == Xor(Shl(r), One(bit))
  {
  }

  lemma {:induction false} StepsOfZero(poly: bv16, n: nat)
    ensures Steps(0, poly, n) == 0
  {
    assert Step(0, poly) == 0;
    if n > 0 {
      StepsOfZero(poly, n - 1);
    }
  }

  lemma OneClimbs()
    ensures
      var s1 := Shl(1); var s2 := Shl(s1); var s3 := Shl(s2); var s4 := Shl(s3); var s5 := Shl(s4);
      var s6 := Shl(s5); var s7 := Shl(s6); var s8 := Shl(s7); var s9 := Shl(s8); var s10 := Shl(s9);
      var s11 := Shl(s10); var s12 := Shl(s11); var s13 := Shl(s12); var s14 := Shl(s13);
      && !Top(1) && !Top(s1) && !Top(s2) && !Top(s3) && !Top(s4) && !Top(s5) && !Top(s6) && !Top(s7)
      && !Top(s8) && !Top(s9) && !Top(s10) && !Top(s11) && !Top(s12) && !Top(s13) && !Top(s14)
      && Shl(s14) == 0x8000
  {
  }

  lemma {:induction false} ClimbAlong(c: bv16, poly: bv16, n: nat)
    requires n > 0 && !Top(c)
    ensures Steps(c, poly, n) == Steps(Shl(c), poly, n - 1)
  {
  }

  /** Sixteen steps take the lowest bit through the top. */
  lemma SixteenSteps(bit: bool, poly: bv16)
    ensures Steps(One(bit), poly, 16) == Step(TopBit(bit), poly)
  {
    if bit {
      OneClimbs();
      hide Shl, Top, Xor, Step;
      var s1 := Shl(1); var s2 := Shl(s1); var s3 := Shl(s2); var s4 := Shl(s3); var s5 := Shl(s4);
      var s6 := Shl(s5); var s7 := Shl(s6); var s8 := Shl(s7); var s9 := Shl(s8); var s10 := Shl(s9);
      var s11 := Shl(s10); var s12 := Shl(s11); var s13 := Shl(s12); var s14 := Shl(s13);
      ClimbAlong(1, poly, 16); ClimbAlong(s1, poly, 15); ClimbAlong(s2, poly, 14); ClimbAlong(s3, poly, 13);
      ClimbAlong(s4, poly, 12); ClimbAlong(s5, poly, 11); ClimbAlong(s6, poly, 10); ClimbAlong(s7, poly, 9);
      ClimbAlong(s8, poly, 8); ClimbAlong(s9, poly, 7); ClimbAlong(s10, poly, 6); ClimbAlong(s11, poly, 5);
      ClimbAlong(s12, poly, 4); ClimbAlong(s13, poly, 3); ClimbAlong(s14, poly, 2);
      assert Steps(0x8000, poly, 1) == Steps(Step(0x8000, poly), poly, 0);
    } else {
      StepsOfZero(poly, 16);
      assert Step(0, poly) == 0;
    }
  }

  /** Adding bits at the top is dividing ahead by sixteen places. */
  lemma {:induction false} DirectIsAhead(r: bv16, bits: seq<bool>, poly: bv16)
    ensures Direct(Steps(r, poly, 16), bits, poly) == Steps(Remainder(r, bits, poly), poly, 16)
    decreases |bits|
  {
    hide Xor, Step, One, TopBit, BringDown, Steps;
    if bits != [] {
      var b, z := bits[0], Steps(r, poly, 16);
      BringDownIsStep(r, b, poly);
      StepsLinear(Step(r, poly), One(b), poly, 16);
      SixteenSteps(b, poly);
      StepOutside(r, poly);
      StepLinear(z, TopBit(b), poly);
      DirectIsAhead(BringDown(r, b, poly), bits[1..], poly);
    }
  }

  lemma StepOutside(r: bv16, poly: bv16)
    ensures Steps(Step(r, poly), poly, 16) == Step(Steps(r, poly, 16), poly)
  {
    StepsSnoc(r, poly, 16);
  }

  lemma {:induction false} ZerosAreSteps(r: bv16, poly: bv16, n: nat)
    ensures Remainder(r, Zeros(n), poly) == Steps(r, poly, n)
    decreases n
  {
    if n > 0 {
      BringDownIsStep(r, false, poly);
      XorUnit(Step(r, poly));
      assert Zeros(n)[1..] == Zeros(n - 1);
      ZerosAreSteps(Step(r, poly), poly, n - 1);
    }
  }

  lemma {:induction false} RemainderConcat(r: bv16, a: seq<bool>, b: seq<bool>, poly: bv16)
    ensures Remainder(r, a + b, poly) == Remainder(Remainder(r, a, poly), b, poly)
    decreases |a|
  {
    hide BringDown;
    if a == [] {
      assert a + b == b;
    } else {
      assert (a + b)[1..] == a[1..] + b;
      RemainderConcat(BringDown(r, a[0], poly), a[1..], b, poly);
    }
  }

  lemma {:induction false} DirectConcat(c: bv16, a: seq<bool>, b: seq<bool>, poly: bv16)
    ensures Direct(c, a + b, poly) == Direct(Direct(c, a, poly), b, poly)
    decreases |a|
  {
    hide Step, Xor, TopBit;
    if a == [] {
      assert a + b == b;
    } else {
      assert (a + b)[1..] == a[1..] + b;
      DirectConcat(Step(Xor(c, TopBit(a[0])), poly), a[1..], b, poly);
    }
  }

  // ---------- a byte at once ----------

  function Rest(b: bv8): bv8 { b & 0x7F }

  function ShlN(b: bv8, n: nat): bv8
    decreases n
  {
    if n == 0 then b else ShlN(Shl8(b), n - 1)
  }

  lemma FirstBit(b: bv8)
    ensures High(b) == Xor(TopBit(Msb(b)), High(Rest(b)))
  {
    assert b & 0x80 == 0 || b & 0x80 == 0x80;
  }

  lemma RestShifts(b: bv8)
    ensures !Top(High(Rest(b))) && Shl(High(Rest(b))) == High(Shl8(b))
  {
  }

  lemma {:induction false} ByteFeeds(c: bv16, b: bv8, n: nat, poly: bv16)
    ensures Steps(Xor(c, High(b)), poly, n) == Xor(Direct(c, BitsOf(b, n), poly), High(ShlN(b, n)))
    decreases n
  {
    if n > 0 {
      FirstBit(b);
      RestShifts(b);
      hide Xor, High, TopBit, Msb, Rest, Shl8, Shl, Top;
      var t, h := TopBit(Msb(b)), High(Rest(b));
      XorLaws(c, t, h);
      StepLinear(Xor(c, t), h, poly);
      var next := Step(Xor(c, t), poly);
      ByteFeeds(next, Shl8(b), n - 1, poly);
      assert BitsOf(b, n)[1..] == BitsOf(Shl8(b), n - 1);
      assert Step(h, poly) == High(Shl8(b));
      assert Step(Xor(c, High(b)), poly) == Xor(next, High(Shl8(b)));
    }
  }

  lemma ShiftedOut(b: bv8)
    ensures High(Shl8(Shl8(Shl8(Shl8(Shl8(Shl8(Shl8(Shl8(b))))))))) == 0
  {
  }

  lemma ByteIsDirect(c: bv16, b: bv8, poly: bv16)
    ensures ByteStep(c, b, poly) == Direct(c, BitsOf(b, 8), poly)
  {
    ByteFeeds(c, b, 8, poly);
    ShiftedOut(b);
    XorUnit(Direct(c, BitsOf(b, 8), poly));
    hide Xor, High, Shl8, Direct, BitsOf, Steps;
    var b1 := Shl8(b); var b2 := Shl8(b1); var b3 := Shl8(b2); var b4 := Shl8(b3);
    assert ShlN(b, 8) == ShlN(b1, 7) == ShlN(b2, 6) == ShlN(b3, 5) == ShlN(b4, 4);
    var b5 := Shl8(b4); var b6 := Shl8(b5); var b7 := Shl8(b6);
    assert ShlN(b4, 4) == ShlN(b5, 3) == ShlN(b6, 2) == ShlN(b7, 1) == ShlN(Shl8(b7), 0);
  }

  lemma {:induction false} BlockIsDirect(block: seq<bv8>, seed: bv16, poly: bv16)
    ensures BlockCrc(block, seed, false, poly) == Direct(seed, BlockBits(block), poly)
    decreases |block|
  {
    hide ByteStep, BitsOf;
    if block != [] {
      var n := |block| - 1;
      BlockIsDirect(block[..n], seed, poly);
      ByteIsDirect(BlockCrc(block[..n], seed, false, poly), block[n], poly);
      DirectConcat(seed, BlockBits(block[..n]), BitsOf(block[n], 8), poly);
    }
  }

  /** The CRC, with seed zero, is the remainder of the message times x^16. */
  lemma CrcIsRemainder(block: seq<bv8>, poly: bv16)
    ensures BlockCrc(block, 0, false, poly) == Remainder(0, BlockBits(block) + Zeros(16), poly)
  {
    hide BlockCrc, BlockBits, Remainder, Direct, Steps, Zeros;
    BlockIsDirect(block, 0, poly);
    StepsOfZero(poly, 16);
    DirectIsAhead(0, BlockBits(block), poly);
    RemainderConcat(0, BlockBits(block), Zeros(16), poly);
    ZerosAreSteps(Remainder(0, BlockBits(block), poly), poly, 16);
  }

  // ---------- burst errors ----------

  function XorBits(x: seq<bool>, y: seq<bool>): (r: seq<bool>)
    requires |x| == |y|
    ensures |r| == |x| && forall i :: 0 <= i < |x| ==> r[i] == (x[i] != y[i])
  {
    seq(|x|, i requires 0 <= i < |x| => x[i] != y[i])
  }

  lemma TopBitXor(a: bool, b: bool)
    ensures Xor(TopBit(a), TopBit(b)) == TopBit(a != b)
  {
  }

  /** One bit fed to two registers. */
  lemma FeedLinear(a: bv16, b: bv16, x: bool, y: bool, poly: bv16)
    ensures Xor(Step(Xor(a, TopBit(x)), poly), Step(Xor(b, TopBit(y)), poly))
         == Step(Xor(Xor(a, b), TopBit(x != y)), poly)
  {
    hide Xor, Step, TopBit;
    StepLinear(Xor(a, TopBit(x)), Xor(b, TopBit(y)), poly);
    TopBitXor(x, y);
    Shuffle(a, TopBit(x), b, TopBit(y));
  }

  lemma Shuffle(a: bv16, x: bv16, b: bv16, y: bv16)
    ensures Xor(Xor(a, x), Xor(b, y)) == Xor(Xor(a, b), Xor(x, y))
  {
    hide Xor;
    XorLaws(a, x, Xor(b, y));
    XorLaws(x, b, y);
    XorLaws(b, x, y);
    XorLaws(a, b, Xor(x, y));
  }

  /** The division of two messages differs by the division of their difference. */
  lemma {:induction false} DirectLinear(a: bv16, b: bv16, x: seq<bool>, y: seq<bool>, poly: bv16)
    requires |x| == |y|
    ensures Xor(Direct(a, x, poly), Direct(b, y, poly)) == Direct(Xor(a, b), XorBits(x, y), poly)
    decreases |x|
  {
    hide Xor, Step, TopBit;
    if x != [] {
      FeedLinear(a, b, x[0], y[0], poly);
      assert XorBits(x, y)[1..] == XorBits(x[1..], y[1..]);
      DirectLinear(Step(Xor(a, TopBit(x[0])), poly), Step(Xor(b, TopBit(y[0])), poly), x[1..], y[1..], poly);
    }
  }

  lemma {:induction false} DirectInjective(a: bv16, b: bv16, x: seq<bool>, poly: bv16)
    requires Odd(poly) && Direct(a, x, poly) == Direct(b, x, poly)
    ensures a == b
    decreases |x|
  {
    hide Xor, Step, TopBit, Odd;
    if x != [] {
      var t := TopBit(x[0]);
      DirectInjective(Step(Xor(a, t), poly), Step(Xor(b, t), poly), x[1..], poly);
      StepInjective(Xor(a, t), Xor(b, t), poly);
      XorCancels(a, b, t);
    }
  }

  /** The register can be shifted n times before its top bit is set. */
  predicate Room(c: bv16, n: nat)
    decreases n
  {
    n == 0 || (!Top(c) && Room(Shl(c), n - 1))
  }

  lemma {:induction false} RoomXor(a: bv16, b: bv16, n: nat)
    requires Room(a, n) && Room(b, n)
    ensures Room(Xor(a, b), n)
    decreases n
  {
    hide Xor, Shl, Top;
    if n > 0 {
      TopXor(a, b);
      ShlXor(a, b);
      RoomXor(Shl(a), Shl(b), n - 1);
    }
  }

  lemma {:induction false} RoomLess(c: bv16, m: nat, n: nat)
    requires Room(c, n) && m <= n
    ensures Room(c, m)
    decreases n
  {
    hide Shl, Top;
    if m > 0 {
      RoomLess(Shl(c), m - 1, n - 1);
    }
  }

  lemma {:induction false} RoomOfZero(n: nat)
    ensures Room(0, n)
    decreases n
  {
    assert Shl(0) == 0 && !Top(0);
    if n > 0 {
      RoomOfZero(n - 1);
    }
  }

  lemma RoomOfOne(bit: bool, n: nat)
    requires n <= 15
    ensures Room(One(bit), n)
  {
    hide Shl, Top;
    if bit {
      OneClimbs();
      OneHasRoom();
      RoomLess(1, n, 15);
    } else {
      RoomOfZero(n);
    }
  }

  lemma OneHasRoom()
    ensures Room(1, 15)
  {
    OneClimbs();
    hide Shl, Top;
    var s1 := Shl(1); var s2 := Shl(s1); var s3 := Shl(s2); var s4 := Shl(s3); var s5 := Shl(s4);
    var s6 := Shl(s5); var s7 := Shl(s6); var s8 := Shl(s7); var s9 := Shl(s8); var s10 := Shl(s9);
    var s11 := Shl(s10); var s12 := Shl(s11); var s13 := Shl(s12); var s14 := Shl(s13);
    assert Room(Shl(s14), 0) && Room(s14, 1) && Room(s13, 2) && Room(s12, 3) && Room(s11, 4) && Room(s10, 5);
    assert Room(s9, 6) && Room(s8, 7) && Room(s7, 8) && Room(s6, 9) && Room(s5, 10);
    assert Room(s4, 11) && Room(s3, 12) && Room(s2, 13) && Room(s1, 14);
  }

  lemma ShiftedInOne(r: bv16, bit: bool)
    requires !Top(r) && (r != 0 || bit)
    ensures Xor(Shl(r), One(bit)) != 0
  {
  }

  /** Sixteen bits at most never meet the generator, so that not all of them can vanish. */
  lemma {:induction false} ShortRemainder(r: bv16, bits: seq<bool>, n: nat, poly: bv16)
    requires Room(r, n) && |bits| <= n <= 16 && (r != 0 || true in bits)
    ensures Remainder(r, bits, poly) != 0
    decreases |bits|
  {
    hide Xor, Shl, Top, One, BringDown;
    if bits != [] {
      var b := bits[0];
      RoomTop(r, n);
      BringDownFits(r, b, poly);
      RoomOfOne(b, n - 1);
      RoomXor(Shl(r), One(b), n - 1);
      var next := BringDown(r, b, poly);
      if r != 0 || b {
        ShiftedInOne(r, b);
      } else {
        assert bits == [b] + bits[1..];
      }
      ShortRemainder(next, bits[1..], n - 1, poly);
    }
  }

  lemma RoomTop(r: bv16, n: nat)
    requires n > 0 && Room(r, n)
    ensures !Top(r) && Room(Shl(r), n - 1)
  {
  }

  lemma BringDownFits(r: bv16, bit: bool, poly: bv16)
    requires !Top(r)
    ensures BringDown(r, bit, poly) == Xor(Shl(r), One(bit))
  {
    OrIsXor(r, bit);
  }

  /** Two different runs of at most sixteen bits leave different registers. */
  lemma ShortBurstIsSeen(c: bv16, u: seq<bool>, v: seq<bool>, poly: bv16)
    requires Odd(poly) && |u| == |v| <= 16 && u != v
    ensures Direct(c, u, poly) != Direct(c, v, poly)
  {
    hide Xor, Direct, Steps, Remainder, Odd;
    var e := XorBits(u, v);
    DirectLinear(c, c, u, v, poly);
    XorUnit(c);
    XorUnit(Direct(c, u, poly));
    StepsOfZero(poly, 16);
    DirectIsAhead(0, e, poly);
    RoomOfZero(16);
    SomeBitDiffers(u, v);
    ShortRemainder(0, e, 16, poly);
    if Steps(Remainder(0, e, poly), poly, 16) == Steps(0, poly, 16) {
      StepsInjective(Remainder(0, e, poly), 0, poly, 16);
    }
  }

  lemma SomeBitDiffers(u: seq<bool>, v: seq<bool>)
    requires |u| == |v| && u != v
    ensures true in XorBits(u, v)
  {
    var i :| 0 <= i < |u| && u[i] != v[i];
    assert XorBits(u, v)[i];
  }

  /** A byte and a block can be told from their bits. */
  lemma BitsInjective(a: bv8, b: bv8)
    requires BitsOf(a, 8) == BitsOf(b, 8)
    ensures a == b
  {
    hide BitsOf, ByteStep, Direct;
    ByteIsDirect(0, a, CRC_GEN_POLY);
    ByteIsDirect(0, b, CRC_GEN_POLY);
    assert Odd(CRC_GEN_POLY);
    ByteStepInjective(0, 0, a, b, CRC_GEN_POLY);
  }

  lemma {:induction false} BitsLength(b: bv8, n: nat)
    ensures |BitsOf(b, n)| == n
    decreases n
  {
    if n > 0 {
      BitsLength(Shl8(b), n - 1);
    }
  }

  lemma SameParts(x: seq<bool>, u: seq<bool>, y: seq<bool>, v: seq<bool>)
    requires |x| == |y| && x + u == y + v
    ensures x == y && u == v
  {
    assert (x + u)[..|x|] == x && (y + v)[..|x|] == y;
    assert (x + u)[|x|..] == u && (y + v)[|x|..] == v;
  }

  lemma {:induction false} BlockBitsInjective(a: seq<bv8>, b: seq<bv8>)
    requires |a| == |b|
    ensures |BlockBits(a)| == |BlockBits(b)| && (BlockBits(a) == BlockBits(b) ==> a == b)
    decreases |a|
  {
    hide BitsOf;
    if a != [] {
      var n := |a| - 1;
      var x, y := BlockBits(a[..n]), BlockBits(b[..n]);
      BlockBitsInjective(a[..n], b[..n]);
      BitsLength(a[n], 8);
      BitsLength(b[n], 8);
      if BlockBits(a) == BlockBits(b) {
        SameParts(x, BitsOf(a[n], 8), y, BitsOf(b[n], 8));
        BitsInjective(a[n], b[n]);
        assert a == a[..n] + [a[n]] && b == b[..n] + [b[n]];
      }
    }
  }

  /** The bits of the two blocks agree outside the sixteen from i on. */
  ghost predicate WithinBurst(a: seq<bv8>, b: seq<bv8>, i: nat)
    requires |BlockBits(a)| == |BlockBits(b)|
  {
    forall k :: 0 <= k < |BlockBits(a)| && !(i <= k < i + 16) ==> BlockBits(a)[k] == BlockBits(b)[k]
  }

  lemma PlainBurstIsSeen(a: seq<bv8>, b: seq<bv8>, i: nat, seed: bv16, poly: bv16)
    requires Odd(poly) && a != b && |a| == |b| && |BlockBits(a)| == |BlockBits(b)| && WithinBurst(a, b, i)
    ensures BlockCrc(a, seed, false, poly) != BlockCrc(b, seed, false, poly)
  {
    hide BlockCrc, BlockBits, Direct, Odd;
    BlockBitsInjective(a, b);
    var x, y := BlockBits(a), BlockBits(b);
    var lo := if i < |x| then i else |x|;
    var hi := if i + 16 < |x| then i + 16 else |x|;
    BlockIsDirect(a, seed, poly);
    BlockIsDirect(b, seed, poly);
    InThree(x, lo, hi);
    InThree(y, lo, hi);
    assert x[..lo] == y[..lo] && x[hi..] == y[hi..];
    DirectConcat(seed, x[..lo], x[lo..hi] + x[hi..], poly);
    DirectConcat(seed, y[..lo], y[lo..hi] + y[hi..], poly);
    var c := Direct(seed, x[..lo], poly);
    DirectConcat(c, x[lo..hi], x[hi..], poly);
    DirectConcat(c, y[lo..hi], y[hi..], poly);
    ShortBurstIsSeen(c, x[lo..hi], y[lo..hi], poly);
    if Direct(Direct(c, x[lo..hi], poly), x[hi..], poly) == Direct(Direct(c, y[lo..hi], poly), x[hi..], poly) {
      DirectInjective(Direct(c, x[lo..hi], poly), Direct(c, y[lo..hi], poly), x[hi..], poly);
    }
  }

  lemma InThree(x: seq<bool>, lo: nat, hi: nat)
    requires lo <= hi <= |x|
    ensures x == x[..lo] + (x[lo..hi] + x[hi..])
  {
  }

  // ---------- the complement ----------

  /** The bytes as the block's CRC takes them in with the complement flag set. */
  function Flipped(block: seq<bv8>): (r: seq<bv8>)
    ensures |r| == |block|
  {
    if block == [] then [] else Flipped(block[..|block| - 1]) + [Data(block[|block| - 1], true)]
  }

  lemma {:induction false} CrcOfFlipped(block: seq<bv8>, seed: bv16, poly: bv16)
    ensures BlockCrc(block, seed, true, poly) == BlockCrc(Flipped(block), seed, false, poly)
    decreases |block|
  {
    hide ByteStep;
    if block != [] {
      var n := |block| - 1;
      CrcOfFlipped(block[..n], seed, poly);
      assert Flipped(block)[..n] == Flipped(block[..n]);
    }
  }

  /** The n top bits of the two bytes are different, one by one. */
  predicate Opposed(b: bv8, d: bv8, n: nat)
    decreases n
  {
    n == 0 || (Msb(b) != Msb(d) && Opposed(Shl8(b), Shl8(d), n - 1))
  }

  lemma FlippedIsOpposed(b: bv8)
    ensures Opposed(b, Data(b, true), 8)
  {
    var d := Data(b, true);
    var b1, d1 := Shl8(b), Shl8(d);
    var b2, d2 := Shl8(b1), Shl8(d1);
    var b3, d3 := Shl8(b2), Shl8(d2);
    var b4, d4 := Shl8(b3), Shl8(d3);
    var b5, d5 := Shl8(b4), Shl8(d4);
    var b6, d6 := Shl8(b5), Shl8(d5);
    var b7, d7 := Shl8(b6), Shl8(d6);
    assert Opposed(b7, d7, 1) && Opposed(b6, d6, 2) && Opposed(b5, d5, 3) && Opposed(b4, d4, 4);
    assert Opposed(b3, d3, 5) && Opposed(b2, d2, 6) && Opposed(b1, d1, 7);
  }

  lemma {:induction false} OpposedBits(b: bv8, d: bv8, n: nat)
    requires Opposed(b, d, n)
    ensures |BitsOf(b, n)| == |BitsOf(d, n)| == n
    ensures forall k :: 0 <= k < n ==> BitsOf(b, n)[k] == !BitsOf(d, n)[k]
    decreases n
  {
    hide Msb, Shl8;
    if n > 0 {
      OpposedBits(Shl8(b), Shl8(d), n - 1);
    }
  }

  lemma {:induction false} FlippedBits(block: seq<bv8>)
    ensures |BlockBits(Flipped(block))| == |BlockBits(block)|
    ensures forall k :: 0 <= k < |BlockBits(block)| ==> BlockBits(block)[k] == !BlockBits(Flipped(block))[k]
    decreases |block|
  {
    hide BitsOf, Data, Opposed;
    if block != [] {
      var n := |block| - 1;
      FlippedBits(block[..n]);
      FlippedIsOpposed(block[n]);
      OpposedBits(block[n], Data(block[n], true), 8);
      assert Flipped(block)[..n] == Flipped(block[..n]);
    }
  }

  /** Different blocks of equal length, whose bits differ only inside some sixteen consecutive ones, have
      different CRCs. */
  lemma BurstIsSeen(a: seq<bv8>, b: seq<bv8>, i: nat, seed: bv16, complement: bool, poly: bv16)
    requires Odd(poly) && a != b && |a| == |b| && |BlockBits(a)| == |BlockBits(b)| && WithinBurst(a, b, i)
    ensures BlockCrc(a, seed, complement, poly) != BlockCrc(b, seed, complement, poly)
  {
    hide BlockCrc, BlockBits, Odd, Flipped;
    if complement {
      CrcOfFlipped(a, seed, poly);
      CrcOfFlipped(b, seed, poly);
      FlippedBits(a);
      FlippedBits(b);
      BlockBitsInjective(a, b);
      assert Flipped(a) != Flipped(b);
      PlainBurstIsSeen(Flipped(a), Flipped(b), i, seed, poly);
    } else {
      PlainBurstIsSeen(a, b, i, seed, poly);
    }
  }
}

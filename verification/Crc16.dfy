/** The table-driven CRC-16 of the serial link, and the polynomial division it stands for. */
module Crc16 {

  const CRC_GEN_POLY: bv16 := 0x8005

  // ---------- bits ----------

  function Xor(a: bv16, b: bv16): bv16 { a ^ b }

  function Shl(a: bv16): bv16 { a << 1 }

  predicate Top(c: bv16) { c & 0x8000 == 0x8000 }

  predicate Odd(c: bv16) { c & 1 == 1 }

  lemma XorCommutes(a: bv16, b: bv16)
    ensures Xor(a, b) == Xor(b, a)
  {
  }

  lemma XorAssociates(a: bv16, b: bv16, c: bv16)
    ensures Xor(Xor(a, b), c) == Xor(a, Xor(b, c))
  {
  }

  lemma XorUnit(a: bv16)
    ensures Xor(a, a) == 0 && Xor(a, 0) == a
  {
  }

  lemma XorLaws(a: bv16, b: bv16, c: bv16)
    ensures Xor(a, b) == Xor(b, a) && Xor(Xor(a, b), c) == Xor(a, Xor(b, c))
    ensures Xor(a, a) == 0 && Xor(a, 0) == a
  {
    hide Xor;
    XorCommutes(a, b);
    XorAssociates(a, b, c);
    XorUnit(a);
  }

  lemma XorCancels(a: bv16, b: bv16, c: bv16)
    ensures Xor(a, c) == Xor(b, c) <==> a == b
  {
    assert (a ^ c) ^ c == a && (b ^ c) ^ c == b;
  }

  lemma ShlXor(a: bv16, b: bv16)
    ensures Shl(Xor(a, b)) == Xor(Shl(a), Shl(b))
  {
  }

  lemma TopXor(a: bv16, b: bv16)
    ensures Top(Xor(a, b)) <==> Top(a) != Top(b)
  {
    assert a & 0x8000 == 0 || a & 0x8000 == 0x8000;
    assert b & 0x8000 == 0 || b & 0x8000 == 0x8000;
    assert (a ^ b) & 0x8000 == (a & 0x8000) ^ (b & 0x8000);
  }

  lemma OddXor(a: bv16, b: bv16)
    ensures Odd(Xor(a, b)) <==> Odd(a) != Odd(b)
    ensures !Odd(Shl(a))
  {
    assert a & 1 == 0 || a & 1 == 1;
    assert b & 1 == 0 || b & 1 == 1;
    assert (a ^ b) & 1 == (a & 1) ^ (b & 1);
  }

  lemma ShlInjective(a: bv16, b: bv16)
    requires Shl(a) == Shl(b) && Top(a) == Top(b)
    ensures a == b
  {
    assert a & 0x8000 == 0 || a & 0x8000 == 0x8000;
    assert b & 0x8000 == 0 || b & 0x8000 == 0x8000;
  }

  // ---------- one step of the division ----------

  /** Multiply by x modulo the generator. */
  function Step(c: bv16, poly: bv16): bv16 {
    if Top(c) then Xor(Shl(c), poly) else Shl(c)
  }

  function Steps(c: bv16, poly: bv16, n: nat): bv16
    decreases n
  {
    if n == 0 then c else Steps(Step(c, poly), poly, n - 1)
  }

  /** The division is linear. */
  lemma StepLinear(a: bv16, b: bv16, poly: bv16)
    ensures Step(Xor(a, b), poly) == Xor(Step(a, poly), Step(b, poly))
  {
    hide Xor, Shl, Top;
    var x, y := Shl(a), Shl(b);
    ShlXor(a, b);
    TopXor(a, b);
    if Top(a) && Top(b) {
      XorLaws(x, poly, Xor(y, poly));
      XorLaws(y, poly, poly);
      XorLaws(poly, Xor(y, poly), x);
      XorLaws(poly, y, poly);
      XorLaws(y, 0, poly);
      XorLaws(poly, poly, 0);
    } else if Top(a) {
      XorLaws(x, poly, y);
      XorLaws(poly, y, x);
      XorLaws(x, y, poly);
    } else if Top(b) {
      XorLaws(x, y, poly);
    }
  }

  lemma {:induction false} StepsLinear(a: bv16, b: bv16, poly: bv16, n: nat)
    ensures Steps(Xor(a, b), poly, n) == Xor(Steps(a, poly, n), Steps(b, poly, n))
    decreases n
  {
    hide Xor, Step;
    if n > 0 {
      StepLinear(a, b, poly);
      StepsLinear(Step(a, poly), Step(b, poly), poly, n - 1);
    }
  }

  /** With a generator that has a constant term, the step loses nothing. */
  lemma StepInjective(a: bv16, b: bv16, poly: bv16)
    requires Odd(poly) && Step(a, poly) == Step(b, poly)
    ensures a == b
  {
    hide Xor, Shl, Top, Odd;
    OddXor(a, b);
    OddXor(b, a);
    OddXor(Shl(a), poly);
    OddXor(Shl(b), poly);
    XorCancels(Shl(a), Shl(b), poly);
    ShlInjective(a, b);
  }

  lemma {:induction false} StepsInjective(a: bv16, b: bv16, poly: bv16, n: nat)
    requires Odd(poly) && Steps(a, poly, n) == Steps(b, poly, n)
    ensures a == b
    decreases n
  {
    hide Step, Odd;
    if n > 0 {
      StepsInjective(Step(a, poly), Step(b, poly), poly, n - 1);
      StepInjective(a, b, poly);
    }
  }

  // ---------- one byte ----------

  /** The byte at the top of the register. */
  function High(b: bv8): bv16 { (b as bv16) << 8 }

  function HighByte(c: bv16): bv8 { (c >> 8) as bv8 }

  function LowByte(c: bv16): bv16 { c & 0xFF }

  function Up(c: bv16): bv16 { c << 8 }

  /** Bit-serial: the byte is added at the top, then divided away bit by bit. */
  function ByteStep(c: bv16, b: bv8, poly: bv16): bv16 {
    Steps(Xor(c, High(b)), poly, 8)
  }

  function TableEntry(b: bv8, poly: bv16): bv16 {
    Steps(High(b), poly, 8)
  }

  lemma LowByteClimbs(c: bv16)
    ensures
      var s0 := LowByte(c);
      var s1 := Shl(s0); var s2 := Shl(s1); var s3 := Shl(s2); var s4 := Shl(s3);
      var s5 := Shl(s4); var s6 := Shl(s5); var s7 := Shl(s6);
      && !Top(s0) && !Top(s1) && !Top(s2) && !Top(s3) && !Top(s4) && !Top(s5) && !Top(s6) && !Top(s7)
      && Shl(s7) == Up(c)
  {
  }

  /** Eight steps move a low byte up without touching the generator. */
  lemma LowByteShifts(c: bv16, poly: bv16)
    ensures Steps(LowByte(c), poly, 8) == Up(c)
  {
    LowByteClimbs(c);
    hide Xor, Shl, Top, LowByte, Up;
    var s0 := LowByte(c);
    var s1 := Shl(s0); var s2 := Shl(s1); var s3 := Shl(s2); var s4 := Shl(s3);
    var s5 := Shl(s4); var s6 := Shl(s5); var s7 := Shl(s6);
    assert Steps(s0, poly, 8) == Steps(s1, poly, 7) == Steps(s2, poly, 6) == Steps(s3, poly, 5);
    assert Steps(s3, poly, 5) == Steps(s4, poly, 4) == Steps(s5, poly, 3) == Steps(s6, poly, 2);
    assert Steps(s6, poly, 2) == Steps(s7, poly, 1) == Steps(Shl(s7), poly, 0);
  }

  lemma HighXor(a: bv8, b: bv8)
    ensures High(a ^ b) == Xor(High(a), High(b))
  {
  }

  lemma TwoBytes(c: bv16)
    ensures c == Xor(High(HighByte(c)), LowByte(c))
  {
  }

  lemma SplitBytes(c: bv16, b: bv8)
    ensures Xor(c, High(b)) == Xor(High(HighByte(c) ^ b), LowByte(c))
  {
    TwoBytes(c);
    HighXor(HighByte(c), b);
    hide Xor, High, HighByte, LowByte;
    var h, l, x := High(HighByte(c)), LowByte(c), High(b);
    XorLaws(h, l, x);
    XorLaws(l, x, h);
    XorLaws(h, x, l);
  }

  /** The table form of a byte equals the bit-serial one. */
  lemma TableStep(c: bv16, b: bv8, poly: bv16)
    ensures Xor(Up(c), TableEntry(HighByte(c) ^ b, poly)) == ByteStep(c, b, poly)
  {
    SplitBytes(c, b);
    hide Xor, High, HighByte, LowByte, Up, Steps;
    var hi := High(HighByte(c) ^ b);
    StepsLinear(hi, LowByte(c), poly, 8);
    LowByteShifts(c, poly);
    XorLaws(Steps(hi, poly, 8), Up(c), 0);
  }

  // ---------- the table, built in wider registers ----------

  function Low(x: bv64): bv16 { (x & 0xFFFF) as bv16 }

  function Extend(x: bv32): bv64 { x as bv64 }

  function Xor64(a: bv64, b: bv64): bv64 { a ^ b }

  function Shl64(a: bv64): bv64 { a << 1 }

  function Shl32(a: bv32): bv32 { a << 1 }

  predicate Bit15(x: bv64) { x & 0x8000 != 0 }

  lemma LowXor(a: bv64, b: bv64)
    ensures Low(Xor64(a, b)) == Xor(Low(a), Low(b))
  {
  }

  lemma LowShl(a: bv64)
    ensures Low(Shl64(a)) == Shl(Low(a))
  {
    ShiftLow(a);
    assert Shl64(a) == a << 1;
    assert Shl(Low(a)) == Low(a) << 1;
  }

  lemma ShiftLow(a: bv64)
    ensures Low(a << 1) == Low(a) << 1
  {
  }

  lemma LowBit15(a: bv64)
    ensures Bit15(a) <==> Top(Low(a))
  {
  }

  lemma LowShl32(n: bv32)
    ensures Low(Extend(Shl32(n))) == Shl(Low(Extend(n)))
  {
    ExtendShl(n);
    LowShl(Extend(n));
  }

  lemma ExtendShl(n: bv32)
    ensures Low(Extend(Shl32(n))) == Low(Shl64(Extend(n)))
  {
    ExtendShift(n);
    assert Shl32(n) == n << 1;
    assert Shl64(Extend(n)) == Extend(n) << 1;
  }

  lemma ExtendShift(n: bv32)
    ensures Low(Extend(n << 1)) == Low(Extend(n) << 1)
  {
    WidenShift(n);
    assert Extend(n << 1) == (n << 1) as bv64;
    assert Extend(n) == n as bv64;
  }

  lemma WidenShift(n: bv32)
    ensures ((n << 1) as bv64) & 0xFFFF == ((n as bv64) << 1) & 0xFFFF
  {
  }

  function BuilderCrc(crc: bv64, data: bv32, genPoly: bv32): bv64 {
    if Bit15(Xor64(Extend(data), crc)) then Xor64(Shl64(crc), Extend(genPoly)) else Shl64(crc)
  }

  /** One turn of the builder, on registers that keep growing: the low 16 bits of data and remainder
      together do one step of the division. */
  lemma BuilderStep(crc: bv64, data: bv32, genPoly: bv32)
    ensures
      Xor(Low(Extend(Shl32(data))), Low(BuilderCrc(crc, data, genPoly)))
      == Step(Xor(Low(Extend(data)), Low(crc)), Low(Extend(genPoly)))
  {
    hide Low, Extend, Xor64, Shl64, Shl32, Bit15, Xor, Shl, Top;
    var d, p := Low(Extend(data)), Low(Extend(genPoly));
    LowXor(Extend(data), crc);
    LowBit15(Xor64(Extend(data), crc));
    LowShl(crc);
    LowShl32(data);
    LowXor(Shl64(crc), Extend(genPoly));
    ShlXor(d, Low(crc));
    XorLaws(Shl(d), Shl(Low(crc)), p);
  }

  lemma {:induction false} StepsSnoc(c: bv16, poly: bv16, n: nat)
    ensures Steps(c, poly, n + 1) == Step(Steps(c, poly, n), poly)
    decreases n
  {
    hide Step;
    if n == 0 {
      assert Steps(Step(c, poly), poly, 0) == Step(c, poly);
    } else {
      StepsSnoc(Step(c, poly), poly, n - 1);
    }
  }

  function Shifted32(data: bv32, n: nat): bv32
    decreases n
  {
    if n == 0 then data else Shl32(Shifted32(data, n - 1))
  }

  function Start(b: bv8): bv32 { (b as bv32) << 8 }

  lemma StartLow(b: bv8)
    ensures Low(Extend(Start(b))) == High(b)
  {
  }

  lemma EightShifts(x: bv32)
    requires x & 0xFF == 0
    ensures Low(Extend(Shl32(Shl32(Shl32(Shl32(Shl32(Shl32(Shl32(Shl32(x)))))))))) == 0
  {
  }

  lemma StartAligned(b: bv8)
    ensures Start(b) & 0xFF == 0
  {
  }

  /** After eight turns nothing of the data is left in the low 16 bits. */
  lemma DataIsGone(b: bv8)
    ensures Low(Extend(Shifted32(Start(b), 8))) == 0
  {
    StartAligned(b);
    EightShifts(Start(b));
    hide Low, Extend, Shl32, Start;
    var x := Start(b);
    assert Shifted32(x, 1) == Shl32(x) && Shifted32(x, 2) == Shl32(Shifted32(x, 1));
    assert Shifted32(x, 3) == Shl32(Shifted32(x, 2)) && Shifted32(x, 4) == Shl32(Shifted32(x, 3));
    assert Shifted32(x, 5) == Shl32(Shifted32(x, 4)) && Shifted32(x, 6) == Shl32(Shifted32(x, 5));
    assert Shifted32(x, 7) == Shl32(Shifted32(x, 6)) && Shifted32(x, 8) == Shl32(Shifted32(x, 7));
  }

  ghost predicate IsTable(table: seq<bv16>, poly: bv16) {
    |table| == 256 && forall i :: 0 <= i < 256 ==> table[i] == TableEntry(i as bv8, poly)
  }

  /** `BuildCRC16TableFor8813`, for any 32-bit generator: only its low 16 bits matter. */
  method BuildTable(genPoly: bv32) returns (table: array<bv16>)
    ensures fresh(table) && IsTable(table[..], Low(Extend(genPoly)))
  {
    table := new bv16[256];
    for i := 0 to 256
      invariant forall k :: 0 <= k < i ==> table[k] == TableEntry(k as bv8, Low(Extend(genPoly)))
    {
      var entry := BuildEntry(i as bv8, genPoly);
      table[i] := entry;
    }
  }

  method BuildEntry(b: bv8, genPoly: bv32) returns (entry: bv16)
    ensures entry == TableEntry(b, Low(Extend(genPoly)))
  {
    var data := Start(b);
    var crc: bv64 := 0;
    ghost var poly := Low(Extend(genPoly));
    StartLow(b);
    assert Low(0) == 0;
    XorLaws(High(b), 0, 0);
    hide Low, Extend, Xor, Shl32, Step, BuilderCrc, Start, High;
    for j := 0 to 8
      invariant data == Shifted32(Start(b), j)
      invariant Xor(Low(Extend(data)), Low(crc)) == Steps(High(b), poly, j)
    {
      BuilderStep(crc, data, genPoly);
      StepsSnoc(High(b), poly, j);
      crc := BuilderCrc(crc, data, genPoly);
      data := Shl32(data);
    }
    DataIsGone(b);
    XorLaws(0, Low(crc), 0);
    XorLaws(Low(crc), 0, 0);
    entry := Low(crc);
  }

  // ---------- blocks ----------

  function Data(b: bv8, complement: bool): bv8 {
    if complement then !b else b
  }

  /** Bit-serial CRC of a block. */
  function BlockCrc(block: seq<bv8>, seed: bv16, complement: bool, poly: bv16): bv16 {
    if block == [] then seed
    else ByteStep(BlockCrc(block[..|block| - 1], seed, complement, poly), Data(block[|block| - 1], complement), poly)
  }

  lemma IndexRoundTrip(b: bv8)
    ensures 0 <= b as int < 256 && (b as int) as bv8 == b
  {
  }

  /** `BlockCRC16TableFor8813` for a seed of 16 bits. */
  method BlockCrcByTable(table: array<bv16>, block: seq<bv8>, seed: bv16, complement: bool, ghost poly: bv16)
    returns (crc: bv16)
    requires IsTable(table[..], poly)
    ensures crc == BlockCrc(block, seed, complement, poly)
  {
    hide Xor, Up, HighByte, TableEntry, ByteStep, Data;
    crc := seed;
    for i := 0 to |block|
      invariant crc == BlockCrc(block[..i], seed, complement, poly)
    {
      var data := Data(block[i], complement);
      var index := HighByte(crc) ^ data;
      IndexRoundTrip(index);
      assert table[..][index as int] == TableEntry(index, poly);
      TableStep(crc, data, poly);
      assert block[..i + 1][..i] == block[..i];
      crc := Xor(Up(crc), table[index as int]);
    }
    assert block[..|block|] == block;
  }

  /** `GenCRC` */
  function GenCrc(block: seq<bv8>): bv16 {
    BlockCrc(block, 0, false, CRC_GEN_POLY)
  }

  // ---------- errors ----------

  lemma ByteStepInjective(c: bv16, d: bv16, a: bv8, b: bv8, poly: bv16)
    requires Odd(poly) && ByteStep(c, a, poly) == ByteStep(d, b, poly)
    ensures a == b ==> c == d
    ensures c == d ==> a == b
  {
    hide Xor, High, Steps, Odd;
    StepsInjective(Xor(c, High(a)), Xor(d, High(b)), poly, 8);
    XorCancels(c, d, High(a));
    XorCommutes(c, High(a));
    XorCommutes(c, High(b));
    XorCancels(High(a), High(b), c);
    HighInjective(a, b);
  }

  lemma HighInjective(a: bv8, b: bv8)
    ensures High(a) == High(b) <==> a == b
  {
  }

  lemma DataInjective(a: bv8, b: bv8, complement: bool)
    ensures Data(a, complement) == Data(b, complement) <==> a == b
  {
  }

  /** Blocks of equal length that differ in exactly one byte have different CRCs. */
  lemma {:induction false} OneByteErrorIsSeen(a: seq<bv8>, b: seq<bv8>, k: nat,
    seed: bv16, complement: bool, poly: bv16)
    requires Odd(poly) && |a| == |b| && k < |a| && a[k] != b[k]
    requires forall i :: 0 <= i < |a| && i != k ==> a[i] == b[i]
    ensures BlockCrc(a, seed, complement, poly) != BlockCrc(b, seed, complement, poly)
    decreases |a|
  {
    hide ByteStep, Data, Odd;
    var n := |a| - 1;
    var c, d := BlockCrc(a[..n], seed, complement, poly), BlockCrc(b[..n], seed, complement, poly);
    var x, y := Data(a[n], complement), Data(b[n], complement);
    DataInjective(a[n], b[n], complement);
    if k < n {
      OneByteErrorIsSeen(a[..n], b[..n], k, seed, complement, poly);
    } else {
      assert a[..n] == b[..n];
    }
    if ByteStep(c, x, poly) == ByteStep(d, y, poly) {
      ByteStepInjective(c, d, x, y, poly);
    }
  }
}

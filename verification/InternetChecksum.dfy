/** The Internet checksum (sections 1 and 2 of RFC 1071) in the two forms the repository has. */
module InternetChecksum {
  import opened Collections

  const WORD: int := 0x1_0000
  const UINT32: int := 0x1_0000_0000

  /** Two bytes as a 16-bit number. */
  function Word(hi: Byte, lo: Byte): (r: nat)
    ensures r < WORD
  {
    256 * hi + lo
  }

  /** The sum of the big-endian 16-bit words, a last single byte padded with zero. */
  function Sum(d: seq<Byte>): (r: nat)
    ensures r <= (|d| + 1) / 2 * 0xFFFF
  {
    if |d| == 0 then 0
    else if |d| == 1 then Word(d[0], 0)
    else Word(d[0], d[1]) + Sum(d[2..])
  }

  /** One's complement reduction: the representative of x modulo 65535 that is zero only for zero. */
  function Reduce(x: nat): (r: nat)
    ensures r < WORD && (r == 0 <==> x == 0)
  {
    if x == 0 then 0 else (x - 1) % 0xFFFF + 1
  }

  function Checksum(d: seq<Byte>): (r: nat)
    ensures r < WORD
  {
    0xFFFF - Reduce(Sum(d))
  }

  lemma ReduceIsUnique(x: nat, r: nat, k: int)
    requires 1 <= r <= 0xFFFF && x > 0 && x == r + 0xFFFF * k
    ensures Reduce(x) == r
  {
    assert x - 1 == 0xFFFF * k + (r - 1);
    assert (x - 1) / 0xFFFF == k;
  }

  function Fold(acc: nat): nat {
    acc / WORD + acc % WORD
  }

  /** Folding keeps the reduction; from 32 bits, two folds reach it. */
  lemma FoldReduces(acc: nat)
    requires acc < UINT32
    ensures Reduce(Fold(acc)) == Reduce(acc)
    ensures Fold(acc) < 2 * WORD - 1
    ensures Fold(acc) < WORD ==> Fold(acc) == Reduce(acc)
    ensures Fold(acc) >= WORD ==> Fold(Fold(acc)) == Reduce(acc)
  {
    var f := Fold(acc);
    assert acc == WORD * (acc / WORD) + acc % WORD;
    if acc > 0 {
      var r := Reduce(acc);
      var k := (acc - 1) / 0xFFFF;
      assert acc == r + 0xFFFF * k;
      assert f == r + 0xFFFF * (k - acc / WORD);
      ReduceIsUnique(f, r, k - acc / WORD);
      if f < WORD {
        ReduceIsUnique(f, f, 0);
      } else {
        assert Fold(f) == f - 0xFFFF;
        ReduceIsUnique(f, f - 0xFFFF, 1);
      }
    }
  }

  lemma FoldShrinks(acc: nat)
    requires acc >= WORD
    ensures Fold(acc) < acc
  {
  }

  lemma FoldOfShort(acc: nat)
    requires acc < WORD
    ensures Reduce(acc) == acc
  {
    if acc > 0 {
      ReduceIsUnique(acc, acc, 0);
    }
  }

  lemma {:induction false} SumStep(d: seq<Byte>, i: nat)
    requires i <= |d|
    ensures i == |d| ==> Sum(d[i..]) == 0
    ensures i + 1 == |d| ==> Sum(d[i..]) == Word(d[i], 0)
    ensures i + 1 < |d| ==> Sum(d[i..]) == Word(d[i], d[i + 1]) + Sum(d[i + 2..])
  {
    if i + 1 < |d| {
      assert d[i..][2..] == d[i + 2..];
    }
  }

  /** `chksum`: byte by byte into a 32-bit accumulator, at most two folds, complement. */
  method Chksum(d: seq<Byte>) returns (r: nat)
    requires |d| <= 0xFFFF
    ensures r == Checksum(d)
  {
    hide Sum, Reduce;
    var acc: nat := AddBytes(d);
    FoldReduces(acc);
    acc := Fold(acc);
    if acc / WORD != 0 {
      acc := Fold(acc);
    }
    r := 0xFFFF - acc % WORD;
  }

  /** The accumulator does not overflow. */
  method AddBytes(d: seq<Byte>) returns (acc: nat)
    requires |d| <= 0xFFFF
    ensures acc == Sum(d) < UINT32
  {
    hide Sum, Word;
    var i := 0;
    acc := 0;
    assert d[0..] == d;
    SumFits(d);
    while |d| - i > 1
      invariant i <= |d| && acc + Sum(d[i..]) == Sum(d)
    {
      SumStep(d, i);
      NoCarry(acc + Word(d[i], d[i + 1]), Sum(d));
      acc := (acc + Word(d[i], d[i + 1])) % UINT32;
      i := i + 2;
    }
    SumStep(d, i);
    if |d| - i > 0 {
      NoCarry(acc + Word(d[i], 0), Sum(d));
      acc := (acc + Word(d[i], 0)) % UINT32;
    }
  }

  lemma SumFits(d: seq<Byte>)
    requires |d| <= 0xFFFF
    ensures Sum(d) < UINT32
  {
  }

  /** Replacing the aligned word at k changes the sum by the difference. */
  lemma {:induction false} SumUpdate(d: seq<Byte>, k: nat, hi: Byte, lo: Byte)
    requires k % 2 == 0 && k + 1 < |d|
    ensures Sum(d[k := hi][k + 1 := lo]) == Sum(d) - Word(d[k], d[k + 1]) + Word(hi, lo)
    decreases |d|
  {
    var e := d[k := hi][k + 1 := lo];
    if k == 0 {
      assert e[2..] == d[2..];
    } else {
      assert e[2..] == d[2..][k - 2 := hi][k - 1 := lo];
      SumUpdate(d[2..], k - 2, hi, lo);
    }
  }

  /** Storing the checksum in a field that was zero makes the whole check out: the checksum is then 0. */
  lemma StoredChecksumVerifies(d: seq<Byte>, k: nat)
    requires k % 2 == 0 && k + 1 < |d| && d[k] == 0 && d[k + 1] == 0
    ensures Checksum(d[k := Checksum(d) / 256][k + 1 := Checksum(d) % 256]) == 0
  {
    var s, c := Sum(d), Checksum(d);
    SumUpdate(d, k, c / 256, c % 256);
    var total := s + c;
    if s == 0 {
      ReduceIsUnique(total, 0xFFFF, 0);
    } else {
      var q := (s - 1) / 0xFFFF;
      assert s == Reduce(s) + 0xFFFF * q;
      ReduceIsUnique(total, 0xFFFF, q);
    }
  }

  /** And only then: a buffer checks out exactly when its words sum to a positive multiple of 65535. */
  lemma ZeroChecksumMeans(d: seq<Byte>)
    ensures Checksum(d) == 0 <==> Sum(d) > 0 && Sum(d) % 0xFFFF == 0
  {
    hide Sum, Reduce;
    FullMeans(Sum(d));
  }

  lemma FullMeans(s: nat)
    ensures Reduce(s) == 0xFFFF <==> s > 0 && s % 0xFFFF == 0
  {
    if s > 0 {
      var q, r := (s - 1) / 0xFFFF, (s - 1) % 0xFFFF;
      assert s == 0xFFFF * q + (r + 1);
      if r + 1 == 0xFFFF {
        Multiple(q + 1, 0);
      } else {
        Multiple(q, r + 1);
      }
    }
  }

  lemma Multiple(q: nat, r: nat)
    requires r < 0xFFFF
    ensures (0xFFFF * q + r) % 0xFFFF == r
  {
  }

  // ---------- the form on machine words ----------

  /** The sum of the words as a little-endian machine reads them. */
  function LittleSum(d: seq<Byte>): (r: nat)
    requires |d| % 2 == 0
    ensures r <= |d| / 2 * 0xFFFF
  {
    if |d| == 0 then 0 else Word(d[1], d[0]) + LittleSum(d[2..])
  }

  /** The sum of the high bytes. */
  function HighSum(d: seq<Byte>): nat
    requires |d| % 2 == 0
  {
    if |d| == 0 then 0 else d[0] + HighSum(d[2..])
  }

  lemma {:induction false} LittleIsShifted(d: seq<Byte>)
    requires |d| % 2 == 0
    ensures LittleSum(d) == 256 * Sum(d) - 0xFFFF * HighSum(d)
  {
    if |d| > 0 {
      LittleIsShifted(d[2..]);
    }
  }

  function SwapBytes(w: nat): (r: nat)
    requires w < WORD
    ensures r < WORD
  {
    w % 256 * 256 + w / 256
  }

  lemma SwapIsShift(w: nat)
    requires w < WORD
    ensures SwapBytes(w) == 256 * w - 0xFFFF * (w / 256)
    ensures SwapBytes(w) == 0 <==> w == 0
    ensures SwapBytes(0xFFFF - w) == 0xFFFF - SwapBytes(w)
  {
    assert w == 256 * (w / 256) + w % 256;
    assert (0xFFFF - w) / 256 == 255 - w / 256 && (0xFFFF - w) % 256 == 255 - w % 256;
  }

  lemma {:induction false} ZeroTogether(d: seq<Byte>)
    requires |d| % 2 == 0
    ensures LittleSum(d) == 0 <==> Sum(d) == 0
  {
    if |d| > 0 {
      ZeroTogether(d[2..]);
    }
  }

  /** Byte order does not matter, up to swapping the result. */
  lemma LittleReducesToSwap(d: seq<Byte>)
    requires |d| % 2 == 0
    ensures Reduce(LittleSum(d)) == SwapBytes(Reduce(Sum(d)))
  {
    var s, r := Sum(d), Reduce(Sum(d));
    LittleIsShifted(d);
    ZeroTogether(d);
    SwapIsShift(r);
    hide Sum, LittleSum, HighSum, SwapBytes;
    if s > 0 {
      var q := (s - 1) / 0xFFFF;
      assert s == r + 0xFFFF * q;
      ReduceIsUnique(LittleSum(d), SwapBytes(r), r / 256 + 256 * q - HighSum(d));
    }
  }

  lemma LittleStep(d: seq<Byte>, left: nat)
    requires |d| % 2 == 0 && left % 2 == 0 && left <= |d|
    ensures left == 0 ==> LittleSum(d[|d| - left..]) == 0
    ensures left > 0 ==> left >= 2
    ensures left > 0 ==>
      LittleSum(d[|d| - left..])
      == Word(d[|d| - left + 1], d[|d| - left]) + LittleSum(d[|d| - (left - 2)..])
  {
    if left > 0 {
      assert d[|d| - left..][2..] == d[|d| - (left - 2)..];
    }
  }

  /** `Compute_cksum` on an even number of bytes: word by word, folding until nothing is carried. */
  method ComputeCksum(d: seq<Byte>) returns (r: nat)
    requires |d| % 2 == 0 && |d| <= 2 * WORD
    ensures r == SwapBytes(Checksum(d))
  {
    hide LittleSum, Sum, Reduce, Fold;
    var sum: nat := AddWords(d);
    while sum / WORD != 0
      invariant sum < UINT32 && Reduce(sum) == Reduce(LittleSum(d))
      decreases sum
    {
      FoldReduces(sum);
      FoldShrinks(sum);
      sum := Fold(sum);
    }
    FoldOfShort(sum);
    LittleReducesToSwap(d);
    SwapIsShift(Reduce(Sum(d)));
    r := 0xFFFF - sum;
  }

  /** The 32-bit sum does not overflow. */
  method AddWords(d: seq<Byte>) returns (sum: nat)
    requires |d| % 2 == 0 && |d| <= 2 * WORD
    ensures sum == LittleSum(d) < UINT32
  {
    hide LittleSum, Word;
    var left := |d|;
    sum := 0;
    assert d[0..] == d;
    LittleSumFits(d);
    while left > 1
      invariant 0 <= left <= |d| && left % 2 == 0 && sum + LittleSum(d[|d| - left..]) == LittleSum(d)
    {
      LittleStep(d, left);
      var word := Word(d[|d| - left + 1], d[|d| - left]);
      NoCarry(sum + word, LittleSum(d));
      sum := (sum + word) % UINT32;
      left := left - 2;
    }
    LittleStep(d, 0);
  }

  lemma LittleSumFits(d: seq<Byte>)
    requires |d| % 2 == 0 && |d| <= 2 * WORD
    ensures LittleSum(d) < UINT32
  {
  }

  /** Adding below a bound that fits loses nothing. */
  lemma NoCarry(sum: nat, bound: nat)
    requires sum <= bound < UINT32
    ensures sum % UINT32 == sum
  {
  }
}

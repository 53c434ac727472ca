/** The bitwise CRC-32 (reflected polynomial 0xEDB88320, section 3.2.9 of IEEE 802.3) and its
    burst-error guarantee: a change confined to four consecutive bytes is always noticed. */
module Crc32 {
  import opened Bytes

  const POLYNOMIAL: bv32 := 0xedb8_8320

  function BitStep(crc: bv32): bv32 {
    (crc >> 1) ^ (POLYNOMIAL & (0 - (crc & 1)))
  }

  function BitSteps(crc: bv32, n: nat): bv32
    decreases n
  {
    if n == 0 then crc else BitSteps(BitStep(crc), n - 1)
  }

  function TwoSteps(crc: bv32): bv32 {
    BitStep(BitStep(crc))
  }

  function FourSteps(crc: bv32): bv32 {
    TwoSteps(TwoSteps(crc))
  }

  function EightSteps(crc: bv32): bv32 {
    FourSteps(FourSteps(crc))
  }

  function ByteStep(crc: bv32, b: byte): bv32 {
    EightSteps(Mixed(crc, b))
  }

  function Run(crc: bv32, data: seq<byte>): bv32
    decreases |data|
  {
    if data == [] then crc else Run(ByteStep(crc, data[0]), data[1..])
  }

  function Checksum(data: seq<byte>): bv32 {
    !Run(0xffff_ffff, data)
  }

  lemma UnrollEight(d: bv32)
    ensures BitSteps(d, 8) == EightSteps(d)
  {
    hide BitStep;
    var d1 := BitStep(d);
    var d2 := BitStep(d1);
    var d3 := BitStep(d2);
    var d4 := BitStep(d3);
    var d5 := BitStep(d4);
    var d6 := BitStep(d5);
    assert BitSteps(d, 8) == BitSteps(d1, 7) == BitSteps(d2, 6);
    assert BitSteps(d2, 6) == BitSteps(d3, 5) == BitSteps(d4, 4);
    assert BitSteps(d4, 4) == BitSteps(d5, 3) == BitSteps(d6, 2);
  }

  /** The program's two nested loops. */
  method Compute(data: seq<byte>) returns (sum: bv32)
    ensures sum == Checksum(data)
  {
    var crc: bv32 := 0xffff_ffff;
    assert data[0..] == data;
    for i := 0 to |data|
      invariant Run(crc, data[i..]) == Run(0xffff_ffff, data)
    {
      ghost var before := crc;
      crc := crc ^ (data[i] as bv32);
      UnrollEight(crc);
      for bit := 0 to 8
        invariant BitSteps(crc, 8 - bit) == ByteStep(before, data[i])
      {
        crc := BitStep(crc);
      }
      assert data[i..][1..] == data[i + 1..];
    }
    sum := !crc;
  }

  // Two runs that have come apart stay apart. A step is undone by looking at its high bits,
  // because the polynomial's top bit is set.

  /** The difference of two states. */
  function Diff(s: bv32, t: bv32): bv32 {
    s ^ t
  }

  function Mixed(s: bv32, x: byte): bv32 {
    s ^ (x as bv32)
  }

  // `UndoneN(before, after)`: unless `after` has one of its top N bits set, it is `before` with N
  // bits shifted out.

  predicate Undone1(before: bv32, after: bv32) {
    after <= 0x7fff_ffff ==> before == after << 1
  }

  predicate Undone2(before: bv32, after: bv32) {
    after <= 0x3fff_ffff ==> before == after << 2
  }

  predicate Undone4(before: bv32, after: bv32) {
    after <= 0x0fff_ffff ==> before == after << 4
  }

  predicate Undone(before: bv32, after: bv32) {
    after <= 0x00ff_ffff ==> before == after << 8
  }

  lemma ChainTwo(before: bv32, middle: bv32, after: bv32)
    requires Undone1(before, middle) && Undone1(middle, after)
    ensures Undone2(before, after)
  {
  }

  lemma ChainFour(before: bv32, middle: bv32, after: bv32)
    requires Undone2(before, middle) && Undone2(middle, after)
    ensures Undone4(before, after)
  {
  }

  lemma ChainEight(before: bv32, middle: bv32, after: bv32)
    requires Undone4(before, middle) && Undone4(middle, after)
    ensures Undone(before, after)
  {
  }

  lemma UndoStep(p: bv32, q: bv32)
    ensures Undone1(Diff(p, q), Diff(BitStep(p), BitStep(q)))
  {
  }

  lemma UndoTwo(p: bv32, q: bv32)
    ensures Undone2(Diff(p, q), Diff(TwoSteps(p), TwoSteps(q)))
  {
    hide BitStep, Diff, Undone1, Undone2;
    UndoStep(BitStep(p), BitStep(q));
    UndoStep(p, q);
    ChainTwo(Diff(p, q), Diff(BitStep(p), BitStep(q)), Diff(TwoSteps(p), TwoSteps(q)));
  }

  lemma UndoFour(p: bv32, q: bv32)
    ensures Undone4(Diff(p, q), Diff(FourSteps(p), FourSteps(q)))
  {
    hide TwoSteps, Diff, Undone2, Undone4;
    UndoTwo(TwoSteps(p), TwoSteps(q));
    UndoTwo(p, q);
    ChainFour(Diff(p, q), Diff(TwoSteps(p), TwoSteps(q)), Diff(FourSteps(p), FourSteps(q)));
  }

  lemma UndoEight(p: bv32, q: bv32)
    ensures Undone(Diff(p, q), Diff(EightSteps(p), EightSteps(q)))
  {
    hide FourSteps, Diff, Undone4, Undone;
    UndoFour(FourSteps(p), FourSteps(q));
    UndoFour(p, q);
    ChainEight(Diff(p, q), Diff(FourSteps(p), FourSteps(q)), Diff(EightSteps(p), EightSteps(q)));
  }

  /** `Apart(d, k)`: the difference `d` of two states does not vanish under `k` more pairs of
      arbitrary bytes. */
  predicate Apart(d: bv32, k: nat) {
    if k == 0 then d != 0
    else if k == 1 then d > 0xff
    else if k == 2 then d > 0xffff
    else k == 3 && d > 0xff_ffff
  }

  lemma MixedApart1(s: bv32, t: bv32, x: byte, y: byte)
    requires Apart(Diff(s, t), 1)
    ensures Apart(Diff(Mixed(s, x), Mixed(t, y)), 1)
  {
  }

  lemma MixedApart2(s: bv32, t: bv32, x: byte, y: byte)
    requires Apart(Diff(s, t), 2)
    ensures Apart(Diff(Mixed(s, x), Mixed(t, y)), 2)
  {
  }

  lemma MixedApart3(s: bv32, t: bv32, x: byte, y: byte)
    requires Apart(Diff(s, t), 3)
    ensures Apart(Diff(Mixed(s, x), Mixed(t, y)), 3)
  {
  }

  /** Mixing a byte into each state touches only the low bits of their difference. */
  lemma MixedApart(s: bv32, t: bv32, x: byte, y: byte, k: nat)
    requires 1 <= k <= 3 && Apart(Diff(s, t), k)
    ensures Apart(Diff(Mixed(s, x), Mixed(t, y)), k)
  {
    hide Apart, Diff, Mixed;
    if k == 1 {
      MixedApart1(s, t, x, y);
    } else if k == 2 {
      MixedApart2(s, t, x, y);
    } else {
      MixedApart3(s, t, x, y);
    }
  }

  lemma ApartShift(before: bv32, after: bv32, k: nat)
    requires 1 <= k && Apart(before, k) && Undone(before, after)
    ensures Apart(after, k - 1)
  {
  }

  lemma LowByteApart(before: bv32, after: bv32)
    requires 0 < before <= 0xff && Undone(before, after)
    ensures Apart(after, 3)
  {
  }

  lemma NonzeroShift(before: bv32, after: bv32)
    requires Apart(before, 0) && Undone(before, after)
    ensures Apart(after, 0)
  {
  }

  lemma MixedSameState(s: bv32, x: byte, y: byte)
    requires x != y
    ensures 0 < Diff(Mixed(s, x), Mixed(s, y)) <= 0xff
  {
  }

  lemma MixedDifferent(s: bv32, t: bv32, x: byte)
    requires s != t
    ensures Mixed(s, x) != Mixed(t, x)
  {
  }

  lemma DifferentIsApart(s: bv32, t: bv32)
    requires s != t
    ensures Apart(Diff(s, t), 0)
  {
  }

  /** What one byte each does to the difference of two states. */
  lemma ByteStepUndone(s: bv32, t: bv32, x: byte, y: byte)
    ensures Undone(Diff(Mixed(s, x), Mixed(t, y)), Diff(ByteStep(s, x), ByteStep(t, y)))
  {
    hide EightSteps, Diff, Undone;
    UndoEight(Mixed(s, x), Mixed(t, y));
  }

  lemma ApartStart(s: bv32, x: byte, y: byte)
    requires x != y
    ensures Apart(Diff(ByteStep(s, x), ByteStep(s, y)), 3)
  {
    hide ByteStep, Apart, Diff, Mixed, Undone;
    MixedSameState(s, x, y);
    ByteStepUndone(s, s, x, y);
    LowByteApart(Diff(Mixed(s, x), Mixed(s, y)), Diff(ByteStep(s, x), ByteStep(s, y)));
  }

  lemma ApartStep(s: bv32, t: bv32, x: byte, y: byte, k: nat)
    requires 1 <= k <= 3 && Apart(Diff(s, t), k)
    ensures Apart(Diff(ByteStep(s, x), ByteStep(t, y)), k - 1)
  {
    hide ByteStep, Apart, Diff, Mixed, Undone;
    MixedApart(s, t, x, y, k);
    ByteStepUndone(s, t, x, y);
    ApartShift(Diff(Mixed(s, x), Mixed(t, y)), Diff(ByteStep(s, x), ByteStep(t, y)), k);
  }

  lemma ApartMeansDifferent(s: bv32, t: bv32)
    requires Apart(Diff(s, t), 0)
    ensures s != t
  {
  }

  lemma SameByteStep(s: bv32, t: bv32, x: byte)
    requires s != t
    ensures Apart(Diff(ByteStep(s, x), ByteStep(t, x)), 0)
  {
    hide ByteStep, Apart, Diff, Mixed, Undone;
    MixedDifferent(s, t, x);
    DifferentIsApart(Mixed(s, x), Mixed(t, x));
    ByteStepUndone(s, t, x, x);
    NonzeroShift(Diff(Mixed(s, x), Mixed(t, x)), Diff(ByteStep(s, x), ByteStep(t, x)));
  }

  lemma ApartZero(d: bv32, k: nat)
    requires Apart(d, k)
    ensures Apart(d, 0)
  {
  }

  lemma {:induction false} SameRestKeepsApart(s: bv32, t: bv32, rest: seq<byte>)
    requires s != t
    ensures Run(s, rest) != Run(t, rest)
    decreases |rest|
  {
    hide ByteStep, Apart, Diff;
    if rest != [] {
      SameByteStep(s, t, rest[0]);
      ApartMeansDifferent(ByteStep(s, rest[0]), ByteStep(t, rest[0]));
      SameRestKeepsApart(ByteStep(s, rest[0]), ByteStep(t, rest[0]), rest[1..]);
    }
  }

  lemma {:induction false} WindowKeepsApart(s: bv32, t: bv32, a: seq<byte>, b: seq<byte>, k: nat, w: nat)
    requires |a| == |b| && w <= k <= 3 && Apart(Diff(s, t), k)
    requires forall i :: w <= i < |a| ==> a[i] == b[i]
    ensures Run(s, a) != Run(t, b)
    decreases |a|
  {
    hide ByteStep, Apart, Diff;
    if w == 0 || a == [] {
      assert a == b;
      ApartZero(Diff(s, t), k);
      ApartMeansDifferent(s, t);
      SameRestKeepsApart(s, t, a);
    } else {
      ApartStep(s, t, a[0], b[0], k);
      WindowKeepsApart(ByteStep(s, a[0]), ByteStep(t, b[0]), a[1..], b[1..], k - 1, w - 1);
    }
  }

  lemma {:induction false} BurstChangesRun(s: bv32, a: seq<byte>, b: seq<byte>, lo: nat, hi: nat)
    requires |a| == |b| && a != b && lo <= hi <= lo + 4
    requires forall i :: 0 <= i < |a| && !(lo <= i < hi) ==> a[i] == b[i]
    ensures Run(s, a) != Run(s, b)
    decreases |a|
  {
    hide ByteStep, Apart, Diff;
    if a[0] == b[0] {
      assert a == [a[0]] + a[1..] && b == [b[0]] + b[1..];
      BurstChangesRun(ByteStep(s, a[0]), a[1..], b[1..],
                      if lo == 0 then 0 else lo - 1, if hi == 0 then 0 else hi - 1);
    } else {
      ApartStart(s, a[0], b[0]);
      WindowKeepsApart(ByteStep(s, a[0]), ByteStep(s, b[0]), a[1..], b[1..], 3, hi - 1);
    }
  }

  /** Two byte strings of one length that differ only inside a window of four bytes never have
      the same checksum. */
  lemma BurstDetected(a: seq<byte>, b: seq<byte>, lo: nat, hi: nat)
    requires |a| == |b| && a != b && lo <= hi <= lo + 4
    requires forall i :: 0 <= i < |a| && !(lo <= i < hi) ==> a[i] == b[i]
    ensures Checksum(a) != Checksum(b)
  {
    hide Run;
    BurstChangesRun(0xffff_ffff, a, b, lo, hi);
    NotInjective(Run(0xffff_ffff, a), Run(0xffff_ffff, b));
  }

  lemma NotInjective(s: bv32, t: bv32)
    requires s != t
    ensures !s != !t
  {
  }

  // Four erased bytes carry an erased checksum.

  lemma OnesShiftedOut()
    ensures ByteStep(0xffff_ffff, 0xff) == 0x00ff_ffff && ByteStep(0x00ff_ffff, 0xff) == 0x0000_ffff
    ensures ByteStep(0x0000_ffff, 0xff) == 0x0000_00ff && ByteStep(0x0000_00ff, 0xff) == 0
  {
  }

  lemma {:induction false} FourOnes()
    ensures Checksum([0xff, 0xff, 0xff, 0xff]) == 0xffff_ffff
  {
    hide ByteStep;
    OnesShiftedOut();
    var ones: seq<byte> := [0xff, 0xff, 0xff, 0xff];
    assert ones[1..] == [0xff, 0xff, 0xff];
    assert Run(0x0000_00ff, [0xff]) == Run(0, []);
    assert Run(0x0000_ffff, [0xff, 0xff]) == 0;
    assert Run(0x00ff_ffff, [0xff, 0xff, 0xff]) == 0;
  }

  // The standard's check value.

  lemma NineDigits1()
    ensures ByteStep(0xffff_ffff, 0x31) == 0x7c23_1048
    ensures ByteStep(0x7c23_1048, 0x32) == 0xb0ac_bb32
    ensures ByteStep(0xb0ac_bb32, 0x33) == 0x77b7_9c2d
  {
  }

  lemma NineDigits2()
    ensures ByteStep(0x77b7_9c2d, 0x34) == 0x641c_1f5c
    ensures ByteStep(0x641c_1f5c, 0x35) == 0x340a_c5e3
    ensures ByteStep(0x340a_c5e3, 0x36) == 0xf68d_2c9e
  {
  }

  lemma NineDigits3()
    ensures ByteStep(0xf68d_2c9e, 0x37) == 0xaffc_9660
    ensures ByteStep(0xaffc_9660, 0x38) == 0x651f_2550
    ensures ByteStep(0x651f_2550, 0x39) == 0x340b_c6d9
  {
  }

  /** The digits "123456789" have the checksum 0xcbf43926. */
  lemma {:induction false} CheckValue()
    ensures Checksum([0x31, 0x32, 0x33, 0x34, 0x35, 0x36, 0x37, 0x38, 0x39]) == 0xcbf4_3926
  {
    hide ByteStep, Run;
    NineDigits1();
    NineDigits2();
    NineDigits3();
    var digits: seq<byte> := [0x31, 0x32, 0x33, 0x34, 0x35, 0x36, 0x37, 0x38, 0x39];
    RunThree(0xffff_ffff, digits[0], digits[1], digits[2], digits[3..]);
    RunThree(0x77b7_9c2d, digits[3], digits[4], digits[5], digits[6..]);
    RunThree(0xf68d_2c9e, digits[6], digits[7], digits[8], []);
    NothingMore(0x340b_c6d9);
    assert digits == [digits[0], digits[1], digits[2]] + digits[3..];
    assert digits[3..] == [digits[3], digits[4], digits[5]] + digits[6..];
    assert digits[6..] == [digits[6], digits[7], digits[8]] + [];
  }

  lemma RunThree(crc: bv32, a: byte, b: byte, c: byte, rest: seq<byte>)
    ensures Run(crc, [a, b, c] + rest) == Run(ByteStep(ByteStep(ByteStep(crc, a), b), c), rest)
  {
    hide ByteStep, Run;
    RunOne(crc, a, [b, c] + rest);
    RunOne(ByteStep(crc, a), b, [c] + rest);
    RunOne(ByteStep(ByteStep(crc, a), b), c, rest);
    assert [a, b, c] + rest == [a] + ([b, c] + rest) && [b, c] + rest == [b] + ([c] + rest);
  }

  lemma RunOne(crc: bv32, a: byte, rest: seq<byte>)
    ensures Run(crc, [a] + rest) == Run(ByteStep(crc, a), rest)
  {
    hide ByteStep;
    assert ([a] + rest)[0] == a && ([a] + rest)[1..] == rest;
  }

  lemma NothingMore(crc: bv32)
    ensures Run(crc, []) == crc
  {
  }
}

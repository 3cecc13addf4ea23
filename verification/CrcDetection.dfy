/** What the Modbus check sum promises: every error burst of at most sixteen bits and every odd
    number of flipped bits is noticed, in frames of any length. */
module CrcDetection {
  import opened Crc

  // ---------- Bursts ----------

  /** `a` and `b` differ only in the `width` bits starting at bit `start`. */
  predicate DifferWithin(a: seq<bool>, b: seq<bool>, start: int, width: nat) {
    |a| == |b| && forall i :: 0 <= i < |a| && a[i] != b[i] ==> start <= i < start + width
  }

  predicate PowerOfTwo(w: bv16, k: nat)
    decreases k
  {
    if k == 0 then w == 1 else w >= 2 && PowerOfTwo(Half(w), k - 1)
  }

  lemma TopBitIsPower()
    ensures PowerOfTwo(0x8000, 15)
  {
    assert PowerOfTwo(8, 3);
    assert PowerOfTwo(0x40, 6);
    assert PowerOfTwo(0x200, 9);
    assert PowerOfTwo(0x1000, 12);
  }

  predicate AtLeast(d: bv16, w: bv16) {
    d >= w
  }

  lemma ShiftBound(d: bv16, w: bv16)
    requires d >= w >= 2
    ensures Shift(d) >= Half(w)
  {
  }

  lemma ShiftBoundFlipped(d: bv16, w: bv16)
    requires d >= w >= 2
    ensures Shift(Xor(d, 1)) >= Half(w)
  {
    HalfFlipped(d);
    assert Half(d) >= Half(w);
  }

  lemma HalfFlipped(d: bv16)
    ensures Half(Xor(d, 1)) == Half(d)
  {
  }

  /** The top set bit of the difference of two registers drops by at most one place per bit. */
  lemma TopBitDropsByOne(x: bv16, y: bv16, a: bool, b: bool, w: bv16)
    requires AtLeast(Xor(x, y), w) && w >= 2
    ensures AtLeast(Xor(BitStep(x, a), BitStep(y, b)), Half(w))
  {
    hide *;
    var d := Xor(x, y);
    BitStepXor(x, y, a, b);
    BitStepBound(d, a != b, w);
  }

  lemma BitStepBound(d: bv16, bit: bool, w: bv16)
    requires AtLeast(d, w) && w >= 2
    ensures AtLeast(BitStep(d, bit), Half(w))
  {
    hide Shift, Xor, Half;
    if bit {
      ShiftBoundFlipped(d, w);
    } else {
      ShiftBound(d, w);
    }
  }

  predicate SameFrom(a: seq<bool>, b: seq<bool>, k: nat) {
    |a| == |b| && forall i :: k <= i < |a| ==> a[i] == b[i]
  }

  lemma SameFromLength(a: seq<bool>, b: seq<bool>, k: nat)
    requires SameFrom(a, b, k)
    ensures |a| == |b|
  {
  }

  lemma SameFromStart(a: seq<bool>, b: seq<bool>)
    requires SameFrom(a, b, 0)
    ensures a == b
  {
  }

  lemma SameFromTail(a: seq<bool>, b: seq<bool>, k: nat)
    requires SameFrom(a, b, k) && k > 0 && a != []
    ensures SameFrom(a[1..], b[1..], k - 1)
  {
  }

  lemma {:induction false} StayApart(x: bv16, y: bv16, a: seq<bool>, b: seq<bool>, w: bv16, k: nat)
    requires SameFrom(a, b, k) && PowerOfTwo(w, k) && AtLeast(Xor(x, y), w)
    ensures Run(x, a) != Run(y, b)
    decreases |a|
  {
    hide *;
    DifferentRegisters(x, y, w, k);
    SameFromLength(a, b, k);
    if k == 0 {
      SameFromStart(a, b);
      if Run(x, a) == Run(y, b) {
        RunInjective(x, y, a);
      }
    } else if a == [] {
      RunNone(x);
      RunNone(y);
    } else {
      PowerStep(w, k);
      TopBitDropsByOne(x, y, a[0], b[0], w);
      SameFromTail(a, b, k);
      StayApart(BitStep(x, a[0]), BitStep(y, b[0]), a[1..], b[1..], Half(w), k - 1);
      RunFirst(x, a);
      RunFirst(y, b);
    }
  }

  lemma RunNone(r: bv16)
    ensures Run(r, []) == r
  {
  }

  lemma RunFirst(r: bv16, a: seq<bool>)
    requires a != []
    ensures Run(r, a) == Run(BitStep(r, a[0]), a[1..])
  {
  }

  lemma PowerStep(w: bv16, k: nat)
    requires PowerOfTwo(w, k) && k > 0
    ensures w >= 2 && PowerOfTwo(Half(w), k - 1)
  {
  }

  lemma DifferentRegisters(x: bv16, y: bv16, w: bv16, k: nat)
    requires AtLeast(Xor(x, y), w) && PowerOfTwo(w, k)
    ensures x != y
  {
  }

  lemma FirstDifference(r: bv16)
    ensures AtLeast(Xor(BitStep(r, false), BitStep(r, true)), 0x8000)
    ensures AtLeast(Xor(BitStep(r, true), BitStep(r, false)), 0x8000)
  {
    hide Shift, Xor;
    BitStepXor(r, r, true, false);
    BitStepXor(r, r, false, true);
    XorSelf(r);
    XorCommutes(0, 1);
    XorZero(1);
    ShiftOfOne();
  }

  lemma {:induction false} BurstChangesRegister(r: bv16, a: seq<bool>, b: seq<bool>, start: int)
    requires DifferWithin(a, b, start, 16) && a != b
    ensures Run(r, a) != Run(r, b)
    decreases |a|
  {
    hide BitStep;
    if a[0] == b[0] {
      assert a == [a[0]] + a[1..] && b == [b[0]] + b[1..];
      assert forall i :: 0 <= i < |a| - 1 ==> a[1..][i] == a[i + 1] && b[1..][i] == b[i + 1];
      BurstChangesRegister(BitStep(r, a[0]), a[1..], b[1..], start - 1);
    } else {
      FirstDifference(r);
      TopBitIsPower();
      assert start <= 0;
      forall i | 15 <= i < |a| - 1 ensures a[1..][i] == b[1..][i] {
        assert a[i + 1] == b[i + 1];
      }
      StayApart(BitStep(r, a[0]), BitStep(r, b[0]), a[1..], b[1..], 0x8000, 15);
    }
  }

  /** Two accepted frames of one length that differ only inside a window of sixteen bits are the same frame. */
  lemma BurstsAreDetected(sent: seq<byte>, received: seq<byte>, start: int)
    requires Accepts(sent)
    requires DifferWithin(Bits(sent), Bits(received), start, 16) && sent != received
    ensures !Accepts(received)
  {
    assert |sent| == |received|;
    AcceptsIffResidueZero(sent);
    AcceptsIffResidueZero(received);
    if Bits(sent) == Bits(received) {
      BitsInjective(sent, received);
    }
    BurstChangesRegister(0xFFFF, Bits(sent), Bits(received), start);
  }

  lemma RunByte(r: bv16, b: byte, w: bv16)
    requires Widen(b) == w
    ensures Run(r, ByteBits(b)) == Shifts(Xor(r, w), 8)
  {
    ByteTogether(r, b);
  }

  lemma FourBytes()
    ensures Widen(0) == 0 && Widen(3) == 3 && Widen(64) == 64 && Widen(1) == 1
  {
  }

  lemma RegisterOfThree(a: byte, b: byte, c: byte)
    ensures Register([a, b, c]) == Run(Run(Run(0xFFFF, ByteBits(a)), ByteBits(b)), ByteBits(c))
  {
    hide Run, Bits, ByteBits;
    EmptyMessage();
    RegisterNext([], a);
    RegisterNext([a], b);
    RegisterNext([a, b], c);
    assert [] + [a] == [a] && [a] + [b] == [a, b] && [a, b] + [c] == [a, b, c];
  }

  lemma SameRegister()
    ensures Register([0, 0, 0]) == Register([3, 64, 1])
  {
    hide Run, Bits, ByteBits, Widen, Register;
    FourBytes();
    RegisterOfThree(0, 0, 0);
    RegisterOfThree(3, 64, 1);
    RunByte(0xFFFF, 0, 0); assert Shifts(0xFFFF, 8) == 0x40bf;
    RunByte(0x40bf, 0, 0); assert Shifts(0x40bf, 8) == 0xb001;
    RunByte(0xb001, 0, 0); assert Shifts(0xb001, 8) == 0xc071;
    RunByte(0xFFFF, 3, 3); assert Shifts(0xfffc, 8) == 0x41ff;
    RunByte(0x41ff, 64, 64); assert Shifts(0x41bf, 8) == 0xb000;
    RunByte(0xb000, 1, 1); assert Shifts(0xb001, 8) == 0xc071;
  }

  lemma CommonTail(a: seq<bool>, b: seq<bool>, t: seq<bool>, start: int, width: nat)
    requires DifferWithin(a, b, start, width)
    ensures DifferWithin(a + t, b + t, start, width)
  {
  }

  /** Sixteen is the best possible: two accepted frames can differ in a window of seventeen bits. */
  lemma SeventeenBitsCanPass() returns (sent: seq<byte>, received: seq<byte>)
    ensures Accepts(sent) && Accepts(received) && sent != received
    ensures DifferWithin(Bits(sent), Bits(received), 0, 17)
  {
    hide *;
    var a, b := [0, 0, 0], [3, 64, 1];
    var t := Trailer(a);
    sent, received := a + t, b + t;
    SameRegister();
    TrailerOfRegister(a, b);
    OwnTrailerAccepted(a);
    OwnTrailerAccepted(b);
    BitsConcat(a, t);
    BitsConcat(b, t);
    SeventeenBitPattern();
    CommonTail(Bits(a), Bits(b), Bits(t), 0, 17);
    assert sent[0] != received[0];
  }

  lemma TrailerOfRegister(a: seq<byte>, b: seq<byte>)
    requires Register(a) == Register(b)
    ensures Trailer(a) == Trailer(b)
  {
  }

  lemma SeventeenBitPattern()
    ensures DifferWithin(Bits([0, 0, 0]), Bits([3, 64, 1]), 0, 17)
  {
    assert forall i :: 17 <= i < 24 ==> Bits([0, 0, 0])[i] == Bits([3, 64, 1])[i];
  }

  // ---------- Odd numbers of flips ----------

  function Distance(a: seq<bool>, b: seq<bool>): nat
    requires |a| == |b|
  {
    if a == [] then 0 else (if a[0] != b[0] then 1 else 0) + Distance(a[1..], b[1..])
  }

  predicate OddOnes(a: seq<bool>) {
    if a == [] then false else a[0] != OddOnes(a[1..])
  }

  lemma {:induction false} DistanceParity(a: seq<bool>, b: seq<bool>)
    requires |a| == |b|
    ensures (Distance(a, b) % 2 == 1) == (OddOnes(a) != OddOnes(b))
  {
    if a != [] {
      DistanceParity(a[1..], b[1..]);
    }
  }

  /** Whether an odd number of the lowest `k` bits of the register are set. */
  predicate Parity(r: bv16, k: nat)
    decreases k
  {
    if k == 0 then false else Low(r) != Parity(Half(r), k - 1)
  }

  lemma {:induction false} ParityXor(x: bv16, y: bv16, k: nat)
    ensures Parity(Xor(x, y), k) == (Parity(x, k) != Parity(y, k))
    decreases k
  {
    hide Xor, Half, Low;
    if k > 0 {
      LowXor(x, y);
      HalfXor(x, y);
      ParityXor(Half(x), Half(y), k - 1);
    }
  }

  predicate Clear(r: bv16, k: nat)
    decreases k
  {
    if k == 0 then r == 0 else Clear(Half(r), k - 1)
  }

  lemma {:induction false} ClearTopAddsNothing(r: bv16, k: nat)
    requires Clear(r, k)
    ensures Parity(r, k + 1) == Parity(r, k)
    decreases k
  {
    if k > 0 {
      ClearTopAddsNothing(Half(r), k - 1);
    }
  }

  function Quarter(r: bv16): bv16 {
    Half(Half(Half(Half(r))))
  }

  lemma FifteenHalvings(r: bv16)
    ensures Quarter(Quarter(Quarter(Quarter(r)))) == 0
  {
  }

  lemma HalfIsClear(r: bv16)
    ensures Clear(Half(r), 15)
  {
    hide Half;
    FifteenHalvings(r);
    var r4 := Quarter(r);
    var r8 := Quarter(r4);
    var r12 := Quarter(r8);
    assert Clear(Quarter(r12), 0);
    assert Clear(Half(Half(r12)), 2);
    assert Clear(r12, 4);
    assert Clear(Half(Half(r8)), 6);
    assert Clear(r8, 8);
    assert Clear(Half(Half(r4)), 10);
    assert Clear(r4, 12);
    assert Clear(Half(Half(r)), 14);
  }

  lemma ConstantParities()
    ensures Parity(0xA001, 16) && Parity(1, 16)
    ensures !Parity(0xFFFF, 16) && !Parity(0, 16)
  {
    assert Parity(0xA, 4) == false;
    assert Parity(0xA0, 8) == false;
    assert Parity(0xA00, 12) == false;
    assert !Parity(0xF, 4);
    assert !Parity(0xFF, 8);
    assert !Parity(0xFFF, 12);
    assert !Parity(0, 12);
    assert !Parity(0, 8);
    assert !Parity(0, 4);
  }

  lemma ShiftKeepsParity(r: bv16)
    ensures Parity(Shift(r), 16) == Parity(r, 16)
  {
    hide Xor, Half, Low, Clear;
    ConstantParities();
    HalfIsClear(r);
    ClearTopAddsNothing(Half(r), 15);
    ParityXor(Half(r), 0xA001, 16);
  }

  lemma {:induction false} RunParity(r: bv16, bits: seq<bool>)
    ensures Parity(Run(r, bits), 16) == (Parity(r, 16) != OddOnes(bits))
    decreases |bits|
  {
    hide Shift, Parity, Xor;
    if bits != [] {
      RunParity(BitStep(r, bits[0]), bits[1..]);
      ConstantParities();
      ParityXor(r, 1, 16);
      ShiftKeepsParity(r);
      ShiftKeepsParity(Xor(r, 1));
    }
  }

  /** Every accepted frame carries an even number of ones, trailer included. */
  lemma AcceptedFramesAreEven(frame: seq<byte>)
    requires Accepts(frame)
    ensures !OddOnes(Bits(frame))
  {
    AcceptsIffResidueZero(frame);
    RunParity(0xFFFF, Bits(frame));
    ConstantParities();
  }

  lemma OddFlipsAreDetected(sent: seq<byte>, received: seq<byte>)
    requires Accepts(sent) && |received| == |sent|
    requires Distance(Bits(sent), Bits(received)) % 2 == 1
    ensures !Accepts(received)
  {
    DistanceParity(Bits(sent), Bits(received));
    AcceptedFramesAreEven(sent);
    if Accepts(received) {
      AcceptedFramesAreEven(received);
    }
  }
}

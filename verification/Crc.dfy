/** The Modbus RTU check sum of `solar_monitor/modbus.py`: the nested byte loop, the bit-serial
    shift register it computes, and the frames whose trailer it accepts. */
module Crc {

  type byte = b: int | 0 <= b < 256

  // ---------- Numbers as bits, least significant bit first (the order on the wire) ----------

  function Pow2(k: nat): nat {
    if k == 0 then 1 else 2 * Pow2(k - 1)
  }

  function ToBits(n: nat, k: nat): (s: seq<bool>)
    ensures |s| == k
  {
    if k == 0 then [] else [n % 2 == 1] + ToBits(n / 2, k - 1)
  }

  function FromBits(s: seq<bool>): (n: nat)
    ensures n < Pow2(|s|)
  {
    if s == [] then 0 else (if s[0] then 1 else 0) + 2 * FromBits(s[1..])
  }

  lemma {:induction false} FromToBits(n: nat, k: nat)
    requires n < Pow2(k)
    ensures FromBits(ToBits(n, k)) == n
  {
    if k > 0 {
      FromToBits(n / 2, k - 1);
      assert ToBits(n, k)[1..] == ToBits(n / 2, k - 1);
    }
  }

  lemma {:induction false} ToFromBits(s: seq<bool>)
    ensures ToBits(FromBits(s), |s|) == s
  {
    if s != [] {
      ToFromBits(s[1..]);
      assert FromBits(s) / 2 == FromBits(s[1..]);
    }
  }

  lemma Pow2At8()
    ensures Pow2(8) == 256
  {
    assert Pow2(4) == 16;
  }

  function ByteBits(b: byte): (s: seq<bool>)
    ensures |s| == 8
  {
    ToBits(b, 8)
  }

  function BitsByte(s: seq<bool>): byte
    requires |s| == 8
  {
    Pow2At8();
    FromBits(s)
  }

  lemma ByteRoundTrip(b: byte)
    ensures BitsByte(ByteBits(b)) == b
  {
    Pow2At8();
    FromToBits(b, 8);
  }

  /** The bits of a frame in transmission order. */
  function Bits(data: seq<byte>): (s: seq<bool>)
    ensures |s| == 8 * |data|
  {
    if data == [] then [] else ByteBits(data[0]) + Bits(data[1..])
  }

  lemma {:induction false} BitsConcat(a: seq<byte>, b: seq<byte>)
    ensures Bits(a + b) == Bits(a) + Bits(b)
    decreases |a|
  {
    hide ByteBits;
    if a == [] {
      assert a + b == b;
    } else {
      assert (a + b)[0] == a[0] && (a + b)[1..] == a[1..] + b;
      BitsConcat(a[1..], b);
      calc {
        Bits(a + b);
        ByteBits(a[0]) + (Bits(a[1..]) + Bits(b));
        (ByteBits(a[0]) + Bits(a[1..])) + Bits(b);
        Bits(a) + Bits(b);
      }
    }
  }

  lemma {:induction false} BitsInjective(a: seq<byte>, b: seq<byte>)
    requires Bits(a) == Bits(b)
    ensures a == b
  {
    if a != [] {
      assert ByteBits(a[0]) == Bits(a)[..8] == Bits(b)[..8] == ByteBits(b[0]);
      assert Bits(a[1..]) == Bits(a)[8..] == Bits(b)[8..] == Bits(b[1..]);
      ByteRoundTrip(a[0]);
      ByteRoundTrip(b[0]);
      BitsInjective(a[1..], b[1..]);
    }
  }

  // ---------- Bits inside the sixteen-bit register ----------

  function Mask(bit: bool, weight: bv16): bv16 {
    if bit then weight else 0
  }

  function Word(s: seq<bool>): bv16
    requires |s| == 8
  {
    Mask(s[0], 1) | Mask(s[1], 2) | Mask(s[2], 4) | Mask(s[3], 8)
    | Mask(s[4], 16) | Mask(s[5], 32) | Mask(s[6], 64) | Mask(s[7], 128)
  }

  function LowBits(r: bv16): (s: seq<bool>)
    ensures |s| == 8
  {
    [r & 1 != 0, r & 2 != 0, r & 4 != 0, r & 8 != 0, r & 16 != 0, r & 32 != 0, r & 64 != 0, r & 128 != 0]
  }

  /** A byte as it enters the register (`crc ^= b`). */
  function Widen(b: byte): bv16 {
    Word(ByteBits(b))
  }

  /** `crc & 0xFF`, as a byte. */
  function LowByte(r: bv16): byte {
    BitsByte(LowBits(r))
  }

  /** `(crc >> 8) & 0xFF`, as a byte. */
  function HighByte(r: bv16): byte {
    LowByte(r >> 8)
  }

  lemma WordOfLowBits(r: bv16)
    ensures Word(LowBits(r)) == r & 0xFF
  {
  }

  lemma LowBitsOfWord(s: seq<bool>)
    requires |s| == 8
    ensures LowBits(Word(s)) == s
    ensures Word(s) < 256
  {
  }

  lemma WidenLow(r: bv16)
    ensures Widen(LowByte(r)) == r & 0xFF
  {
    ToFromBits(LowBits(r));
    WordOfLowBits(r);
  }

  lemma WidenHigh(r: bv16)
    ensures Widen(HighByte(r)) == r >> 8
  {
    WidenLow(r >> 8);
    assert (r >> 8) & 0xFF == r >> 8;
  }

  lemma LowWiden(b: byte)
    ensures LowByte(Widen(b)) == b
    ensures Widen(b) < 256
  {
    LowBitsOfWord(ByteBits(b));
    ByteRoundTrip(b);
  }

  // ---------- The bit-serial register of the MODBUS serial line specification, section 2.5.1.2 ----------

  function Xor(a: bv16, b: bv16): bv16 {
    a ^ b
  }

  function Half(r: bv16): bv16 {
    r >> 1
  }

  predicate Low(r: bv16) {
    r & 1 != 0
  }

  /** One shift to the right, with the polynomial applied when a one falls out. */
  function Shift(r: bv16): bv16 {
    if Low(r) then Xor(Half(r), 0xA001) else Half(r)
  }

  function BitStep(r: bv16, bit: bool): bv16 {
    Shift(if bit then Xor(r, 1) else r)
  }

  function Run(r: bv16, bits: seq<bool>): bv16
    decreases |bits|
  {
    if bits == [] then r else Run(BitStep(r, bits[0]), bits[1..])
  }

  /** The check sum of a message: the register after all its bits, from all ones. */
  function Register(data: seq<byte>): bv16 {
    Run(0xFFFF, Bits(data))
  }

  /** The two bytes sent after a message, low byte first. */
  function Trailer(data: seq<byte>): (t: seq<byte>)
    ensures |t| == 2
  {
    [LowByte(Register(data)), HighByte(Register(data))]
  }

  lemma {:induction false} RunConcat(r: bv16, a: seq<bool>, b: seq<bool>)
    ensures Run(r, a + b) == Run(Run(r, a), b)
    decreases |a|
  {
    if a == [] {
      assert a + b == b;
    } else {
      assert (a + b)[1..] == a[1..] + b;
      RunConcat(BitStep(r, a[0]), a[1..], b);
    }
  }

  // ---------- The byte loop computes the bit-serial register ----------

  function Shifts(r: bv16, k: nat): bv16
    decreases k
  {
    if k == 0 then r else Shifts(Shift(r), k - 1)
  }

  lemma {:induction false} ShiftsLast(r: bv16, k: nat)
    ensures Shifts(r, k + 1) == Shift(Shifts(r, k))
    decreases k
  {
    if k > 0 {
      ShiftsLast(Shift(r), k - 1);
    }
  }

  lemma XorAssociates(a: bv16, b: bv16, c: bv16)
    ensures Xor(Xor(a, b), c) == Xor(a, Xor(b, c))
  {
  }

  lemma XorCommutes(a: bv16, b: bv16)
    ensures Xor(a, b) == Xor(b, a)
  {
  }

  lemma XorSwap(a: bv16, b: bv16, c: bv16)
    ensures Xor(Xor(a, b), c) == Xor(Xor(a, c), b)
  {
    hide Xor;
    XorAssociates(a, b, c);
    XorAssociates(a, c, b);
    XorCommutes(b, c);
  }

  lemma XorPairs(a: bv16, b: bv16, c: bv16, d: bv16)
    ensures Xor(Xor(a, b), Xor(c, d)) == Xor(Xor(a, c), Xor(b, d))
  {
    hide Xor;
    XorAssociates(Xor(a, b), c, d);
    XorSwap(a, b, c);
    XorAssociates(Xor(a, c), b, d);
  }

  lemma XorZero(r: bv16)
    ensures Xor(r, 0) == r
  {
  }

  lemma XorSelf(r: bv16)
    ensures Xor(r, r) == 0
  {
  }

  lemma XorIsZero(a: bv16, b: bv16)
    ensures Xor(a, b) == 0 <==> a == b
  {
    hide Xor;
    XorSelf(b);
    XorZero(a);
    XorZero(b);
    XorAssociates(a, b, b);
    XorCommutes(0, b);
  }

  lemma HalfXor(r: bv16, w: bv16)
    ensures Half(Xor(r, w)) == Xor(Half(r), Half(w))
  {
  }

  lemma LowXor(r: bv16, w: bv16)
    ensures Low(Xor(r, w)) == (Low(r) != Low(w))
  {
  }

  /** The register is linear. */
  lemma ShiftXor(x: bv16, y: bv16)
    ensures Shift(Xor(x, y)) == Xor(Shift(x), Shift(y))
  {
    hide Xor, Half, Low;
    HalfXor(x, y);
    LowXor(x, y);
    var p: bv16 := 0xA001;
    XorSwap(Half(x), p, Half(y));
    XorAssociates(Half(x), Half(y), p);
    XorPairs(Half(x), p, Half(y), p);
    XorSelf(p);
    XorZero(Xor(Half(x), Half(y)));
  }

  lemma BitStepXor(x: bv16, y: bv16, a: bool, b: bool)
    ensures Xor(BitStep(x, a), BitStep(y, b)) == BitStep(Xor(x, y), a != b)
  {
    hide Xor, Shift;
    ShiftXor(if a then Xor(x, 1) else x, if b then Xor(y, 1) else y);
    XorSwap(x, 1, y);
    XorAssociates(x, y, 1);
    XorPairs(x, 1, y, 1);
    XorSelf(1);
    XorZero(Xor(x, y));
  }

  /** Bits that are not yet due ride along, one place lower after each shift. */
  lemma LowestFirst(r: bv16, w: bv16)
    ensures Shift(Xor(r, w)) == Xor(BitStep(r, Low(w)), Half(w))
  {
    hide Xor, Half, Low;
    ShiftXor(r, w);
    ShiftXor(r, 1);
    ShiftOfOne();
    XorAssociates(Shift(r), Half(w), 0xA001);
    XorSwap(Shift(r), 0xA001, Half(w));
  }

  lemma ShiftOfOne()
    ensures Shift(1) == 0xA001
  {
  }

  /** `w` holds exactly the bits of `s` from index `k` on, lowest first. */
  predicate Holds(w: bv16, s: seq<bool>, k: nat)
    requires k <= |s|
    decreases |s| - k
  {
    if k == |s| then w == 0 else Low(w) == s[k] && Holds(Half(w), s, k + 1)
  }

  lemma {:induction false} BitsTogether(r: bv16, w: bv16, s: seq<bool>, k: nat)
    requires k <= |s| && Holds(w, s, k)
    ensures Shifts(Xor(r, w), |s| - k) == Run(r, s[k..])
    decreases |s| - k
  {
    hide Shift, BitStep, Xor, Half, Low;
    if k < |s| {
      LowestFirst(r, w);
      assert s[k..][1..] == s[k + 1..];
      BitsTogether(BitStep(r, s[k]), Half(w), s, k + 1);
    } else {
      XorZero(r);
    }
  }

  lemma WordHolds(s: seq<bool>)
    requires |s| == 8
    ensures Holds(Word(s), s, 0)
  {
    LowBitsOfWord(s);
    LowBitsHold(Word(s));
  }

  lemma LowBitsHold(w: bv16)
    requires w < 256
    ensures Holds(w, LowBits(w), 0)
  {
    hide LowBits, Low, Half;
    EightHalvings(w);
    var s := LowBits(w);
    var w4 := Half(Half(Half(Half(w))));
    assert Holds(Half(Half(Half(Half(w4)))), s, 8);
    assert Holds(Half(Half(w4)), s, 6);
    assert Holds(w4, s, 4);
    assert Holds(Half(Half(w)), s, 2);
  }

  lemma EightHalvings(w: bv16)
    requires w < 256
    ensures var w1 := Half(w); var w2 := Half(w1); var w3 := Half(w2); var w4 := Half(w3);
            var w5 := Half(w4); var w6 := Half(w5); var w7 := Half(w6);
            var s := LowBits(w);
            && s[0] == Low(w) && s[1] == Low(w1) && s[2] == Low(w2) && s[3] == Low(w3)
            && s[4] == Low(w4) && s[5] == Low(w5) && s[6] == Low(w6) && s[7] == Low(w7)
            && Half(w7) == 0
  {
  }

  lemma ByteTogether(r: bv16, b: byte)
    ensures Shifts(Xor(r, Widen(b)), 8) == Run(r, ByteBits(b))
  {
    hide Xor, Word, ByteBits, Shifts, Run, Holds;
    WordHolds(ByteBits(b));
    BitsTogether(r, Widen(b), ByteBits(b), 0);
    assert ByteBits(b)[0..] == ByteBits(b);
  }

  method Crc16(data: seq<byte>) returns (out: seq<byte>)
    ensures out == Trailer(data)
  {
    hide Widen, Run, Bits, Shifts, LowByte, HighByte;
    EmptyMessage();
    var crc: bv16 := 0xFFFF;
    assert data[..0] == [];
    for i := 0 to |data|
      invariant crc == Register(data[..i])
    {
      ghost var before := crc;
      crc := crc ^ Widen(data[i]);
      ghost var mixed := crc;
      NoShifts(mixed);
      for k := 0 to 8
        invariant crc == Shifts(mixed, k)
      {
        ShiftsLast(mixed, k);
        if crc & 1 != 0 {
          crc := (crc >> 1) ^ 0xA001;
        } else {
          crc := crc >> 1;
        }
      }
      ByteTogether(before, data[i]);
      RegisterNext(data[..i], data[i]);
      assert data[..i + 1] == data[..i] + [data[i]];
    }
    assert data[..|data|] == data;
    out := [LowByte(crc), HighByte(crc)];
  }

  lemma EmptyMessage()
    ensures Register([]) == 0xFFFF
  {
  }

  lemma NoShifts(r: bv16)
    ensures Shifts(r, 0) == r
  {
  }

  lemma RegisterNext(data: seq<byte>, b: byte)
    ensures Register(data + [b]) == Run(Register(data), ByteBits(b))
  {
    BitsConcat(data, [b]);
    assert Bits([b]) == ByteBits(b);
    RunConcat(0xFFFF, Bits(data), Bits([b]));
  }

  // ---------- A frame is accepted exactly when the register over all of it is zero ----------

  /** The comparison `crc16(resp[:-2]) == resp[-2:]`. */
  predicate Accepts(frame: seq<byte>) {
    |frame| >= 2 && Trailer(frame[..|frame| - 2]) == frame[|frame| - 2..]
  }

  lemma OwnTrailerAccepted(data: seq<byte>)
    ensures Accepts(data + Trailer(data))
  {
    hide Trailer;
    var frame := data + Trailer(data);
    assert frame[..|frame| - 2] == data && frame[|frame| - 2..] == Trailer(data);
  }

  lemma ShiftInjective(a: bv16, b: bv16)
    requires Shift(a) == Shift(b)
    ensures a == b
  {
    if Low(a) {
      if Low(b) {} else {}
    } else {
      if Low(b) {} else {}
    }
  }

  lemma {:induction false} ShiftsInjective(a: bv16, b: bv16, k: nat)
    requires Shifts(a, k) == Shifts(b, k)
    ensures a == b
    decreases k
  {
    hide Shift;
    if k > 0 {
      ShiftsInjective(Shift(a), Shift(b), k - 1);
      ShiftInjective(a, b);
    }
  }

  lemma {:induction false} ShiftsOfZero(k: nat)
    ensures Shifts(0, k) == 0
  {
    if k > 0 {
      ShiftsOfZero(k - 1);
    }
  }

  lemma {:induction false} RunInjective(a: bv16, b: bv16, bits: seq<bool>)
    requires Run(a, bits) == Run(b, bits)
    ensures a == b
    decreases |bits|
  {
    hide BitStep;
    if bits != [] {
      RunInjective(BitStep(a, bits[0]), BitStep(b, bits[0]), bits[1..]);
      BitStepInjective(a, b, bits[0]);
    }
  }

  lemma BitStepInjective(a: bv16, b: bv16, bit: bool)
    requires BitStep(a, bit) == BitStep(b, bit)
    ensures a == b
  {
    hide Shift, Xor;
    if bit {
      ShiftInjective(Xor(a, 1), Xor(b, 1));
      XorCancels(a, b, 1);
    } else {
      ShiftInjective(a, b);
    }
  }

  lemma XorCancels(a: bv16, b: bv16, c: bv16)
    requires Xor(a, c) == Xor(b, c)
    ensures a == b
  {
  }

  predicate EightLowZeros(r: bv16) {
    r & 0xFF == 0
  }

  /** With nothing but zeros falling out, eight shifts move the high byte down. */
  lemma HighByteFalls(r: bv16)
    requires EightLowZeros(r)
    ensures Shifts(r, 8) == r >> 8
  {
    hide Half, Low;
    var r1 := Half(r); var r2 := Half(r1); var r3 := Half(r2); var r4 := Half(r3);
    var r5 := Half(r4); var r6 := Half(r5); var r7 := Half(r6);
    HighByteHalvings(r);
    assert Shifts(r6, 2) == Half(r7);
    assert Shifts(r4, 4) == Half(r7);
    assert Shifts(r2, 6) == Half(r7);
  }

  lemma HighByteHalvings(r: bv16)
    requires EightLowZeros(r)
    ensures var r1 := Half(r); var r2 := Half(r1); var r3 := Half(r2); var r4 := Half(r3);
            var r5 := Half(r4); var r6 := Half(r5); var r7 := Half(r6);
            && !Low(r) && !Low(r1) && !Low(r2) && !Low(r3) && !Low(r4) && !Low(r5) && !Low(r6) && !Low(r7)
            && Half(r7) == r >> 8
  {
  }

  lemma WithoutLowByte(r: bv16)
    ensures EightLowZeros(Xor(r, r & 0xFF))
    ensures Xor(r, r & 0xFF) >> 8 == r >> 8
  {
  }

  lemma HighOnly(w: bv16)
    requires w < 256
    ensures EightLowZeros(w << 8)
    ensures (w << 8) >> 8 == w
  {
  }

  lemma SplitRegister(r: bv16, lo: bv16, hi: bv16)
    requires lo < 256 && hi < 256
    requires Xor(r, lo) == hi << 8
    ensures lo == r & 0xFF
    ensures hi == r >> 8
  {
  }

  /** The register is cleared by its own two bytes, low byte first, ... */
  lemma OwnBytesClear(r: bv16)
    ensures Run(Run(r, ByteBits(LowByte(r))), ByteBits(HighByte(r))) == 0
  {
    hide *;
    ByteTogether(r, LowByte(r));
    WidenLow(r);
    WithoutLowByte(r);
    HighByteFalls(Xor(r, r & 0xFF));
    ByteTogether(r >> 8, HighByte(r));
    WidenHigh(r);
    XorSelf(r >> 8);
    ShiftsOfZero(8);
  }

  /** ... and by no other two. */
  lemma ClearedOnlyByOwnBytes(r: bv16, lo: byte, hi: byte)
    requires Run(Run(r, ByteBits(lo)), ByteBits(hi)) == 0
    ensures lo == LowByte(r) && hi == HighByte(r)
  {
    hide *;
    var mid := Run(r, ByteBits(lo));
    ByteTogether(mid, hi);
    ShiftsOfZero(8);
    ShiftsInjective(Xor(mid, Widen(hi)), 0, 8);
    XorIsZero(mid, Widen(hi));
    LowWiden(hi);
    HighOnly(Widen(hi));
    HighByteFalls(Widen(hi) << 8);
    ByteTogether(r, lo);
    ShiftsInjective(Xor(r, Widen(lo)), Widen(hi) << 8, 8);
    OwnBytesOf(r, lo, hi);
  }

  lemma OwnBytesOf(r: bv16, lo: byte, hi: byte)
    requires Xor(r, Widen(lo)) == Widen(hi) << 8
    ensures lo == LowByte(r) && hi == HighByte(r)
  {
    hide *;
    LowWiden(lo);
    LowWiden(hi);
    SplitRegister(r, Widen(lo), Widen(hi));
    WidenLow(r);
    WidenHigh(r);
    LowWiden(LowByte(r));
    LowWiden(HighByte(r));
  }

  lemma OwnBytesWiden(r: bv16, hi: byte, lo: byte)
    ensures hi == HighByte(r) <==> Widen(hi) == r >> 8
    ensures lo == LowByte(r) <==> Widen(lo) == r & 0xFF
  {
    hide *;
    WidenHigh(r);
    WidenLow(r);
    LowWiden(hi);
    LowWiden(lo);
    LowWiden(HighByte(r));
    LowWiden(LowByte(r));
  }

  lemma WordIs(b: byte, s: seq<bool>, w: bv16)
    requires |s| == 8 && b == FromBits(s) && Word(s) == w
    ensures Widen(b) == w
  {
    hide Word;
    ToFromBits(s);
  }

  lemma AcceptsIffResidueZero(frame: seq<byte>)
    requires |frame| >= 2
    ensures Accepts(frame) <==> Register(frame) == 0
  {
    hide Run, Bits, ByteBits, Widen, LowByte, HighByte;
    var n := |frame| - 2;
    var lo, hi := frame[n], frame[n + 1];
    RegisterNext(frame[..n], lo);
    RegisterNext(frame[..n] + [lo], hi);
    assert frame == frame[..n] + [lo] + [hi];
    assert frame[n..] == [lo, hi];
    OwnBytesClear(Register(frame[..n]));
    if Register(frame) == 0 {
      ClearedOnlyByOwnBytes(Register(frame[..n]), lo, hi);
    }
  }
}

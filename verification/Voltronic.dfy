/** `solar_monitor/voltronic_crc.py`: the XMODEM check sum, its framing-byte substitution, and frames ended by a CR. */
module Voltronic {
  import opened Wrappers
  import opened Crc

  const CR: byte := 0x0D

  // ---------- The XMODEM register, most significant bit first ----------

  predicate Top(r: bv16) {
    r & 0x8000 != 0
  }

  function Double(r: bv16): bv16 {
    r << 1
  }

  function ShiftUp(r: bv16): bv16 {
    if Top(r) then Xor(Double(r), 0x1021) else Double(r)
  }

  function BitStepUp(r: bv16, bit: bool): bv16 {
    ShiftUp(if bit then Xor(r, 0x8000) else r)
  }

  function RunUp(r: bv16, bits: seq<bool>): bv16
    decreases |bits|
  {
    if bits == [] then r else RunUp(BitStepUp(r, bits[0]), bits[1..])
  }

  function BitsDown(b: byte): (s: seq<bool>)
    ensures |s| == 8
  {
    var s := ByteBits(b);
    [s[7], s[6], s[5], s[4], s[3], s[2], s[1], s[0]]
  }

  /** The register after a whole message, fed bit by bit from zero. */
  function Xmodem(data: seq<byte>): bv16
    decreases |data|
  {
    if data == [] then 0 else RunUp(Xmodem(data[..|data| - 1]), BitsDown(data[|data| - 1]))
  }

  function ShiftsUp(r: bv16, k: nat): bv16
    decreases k
  {
    if k == 0 then r else ShiftsUp(ShiftUp(r), k - 1)
  }

  lemma {:induction false} ShiftsUpLast(r: bv16, k: nat)
    ensures ShiftsUp(r, k + 1) == ShiftUp(ShiftsUp(r, k))
    decreases k
  {
    hide ShiftUp;
    if k > 0 {
      ShiftsUpLast(ShiftUp(r), k - 1);
    }
  }

  lemma DoubleXor(r: bv16, w: bv16)
    ensures Double(Xor(r, w)) == Xor(Double(r), Double(w))
  {
  }

  lemma TopXor(r: bv16, w: bv16)
    ensures Top(Xor(r, w)) == (Top(r) != Top(w))
  {
  }

  lemma ShiftUpXor(x: bv16, y: bv16)
    ensures ShiftUp(Xor(x, y)) == Xor(ShiftUp(x), ShiftUp(y))
  {
    hide Xor, Double, Top;
    DoubleXor(x, y);
    TopXor(x, y);
    var p: bv16 := 0x1021;
    XorSwap(Double(x), p, Double(y));
    XorAssociates(Double(x), Double(y), p);
    XorPairs(Double(x), p, Double(y), p);
    XorSelf(p);
    XorZero(Xor(Double(x), Double(y)));
  }

  lemma ShiftUpOfTop()
    ensures ShiftUp(0x8000) == 0x1021
  {
  }

  /** Bits that are not yet due ride along, one place higher after each shift. */
  lemma HighestFirst(r: bv16, w: bv16)
    ensures ShiftUp(Xor(r, w)) == Xor(BitStepUp(r, Top(w)), Double(w))
  {
    hide Xor, Double, Top;
    ShiftUpXor(r, w);
    ShiftUpXor(r, 0x8000);
    ShiftUpOfTop();
    XorAssociates(ShiftUp(r), Double(w), 0x1021);
    XorSwap(ShiftUp(r), 0x1021, Double(w));
  }

  /** `w` holds exactly the bits of `s` from index `k` on, highest first. */
  predicate HoldsUp(w: bv16, s: seq<bool>, k: nat)
    requires k <= |s|
    decreases |s| - k
  {
    if k == |s| then w == 0 else Top(w) == s[k] && HoldsUp(Double(w), s, k + 1)
  }

  lemma {:induction false} BitsTogetherUp(r: bv16, w: bv16, s: seq<bool>, k: nat)
    requires k <= |s| && HoldsUp(w, s, k)
    ensures ShiftsUp(Xor(r, w), |s| - k) == RunUp(r, s[k..])
    decreases |s| - k
  {
    hide ShiftUp, BitStepUp, Xor, Double, Top;
    if k < |s| {
      HighestFirst(r, w);
      assert s[k..][1..] == s[k + 1..];
      BitsTogetherUp(BitStepUp(r, s[k]), Double(w), s, k + 1);
    } else {
      XorZero(r);
    }
  }

  /** A byte as it enters the register (`crc ^= byte << 8`). */
  function Raised(b: byte): bv16 {
    Widen(b) << 8
  }

  lemma RaisedBits(b: byte)
    ensures var s, w := BitsDown(b), Raised(b);
            var w1 := Double(w); var w2 := Double(w1); var w3 := Double(w2); var w4 := Double(w3);
            var w5 := Double(w4); var w6 := Double(w5); var w7 := Double(w6);
            && s[0] == Top(w) && s[1] == Top(w1) && s[2] == Top(w2) && s[3] == Top(w3)
            && s[4] == Top(w4) && s[5] == Top(w5) && s[6] == Top(w6) && s[7] == Top(w7)
            && Double(w7) == 0
  {
    hide ByteBits;
  }

  lemma RaisedHolds(b: byte)
    ensures HoldsUp(Raised(b), BitsDown(b), 0)
  {
    hide Raised, Double, Top, BitsDown;
    RaisedBits(b);
    var d := BitsDown(b);
    var w := Raised(b);
    var w4 := Double(Double(Double(Double(w))));
    assert HoldsUp(Double(Double(Double(Double(w4)))), d, 8);
    assert HoldsUp(Double(Double(w4)), d, 6);
    assert HoldsUp(w4, d, 4);
    assert HoldsUp(Double(Double(w)), d, 2);
  }

  lemma ByteTogetherUp(r: bv16, b: byte)
    ensures ShiftsUp(Xor(r, Raised(b)), 8) == RunUp(r, BitsDown(b))
  {
    hide Xor, Raised, BitsDown, ShiftsUp, RunUp, HoldsUp;
    RaisedHolds(b);
    BitsTogetherUp(r, Raised(b), BitsDown(b), 0);
    assert BitsDown(b)[0..] == BitsDown(b);
  }

  lemma XmodemNext(data: seq<byte>, b: byte)
    ensures Xmodem(data + [b]) == RunUp(Xmodem(data), BitsDown(b))
  {
    hide RunUp, BitsDown;
    var all := data + [b];
    assert all[..|all| - 1] == data;
  }

  method Crc16Xmodem(data: seq<byte>) returns (crc: bv16)
    ensures crc == Xmodem(data)
  {
    hide Raised, RunUp, BitsDown, ShiftUp, ShiftsUp, Xmodem;
    crc := 0;
    assert data[..0] == [];
    EmptyXmodem();
    for i := 0 to |data|
      invariant crc == Xmodem(data[..i])
    {
      ghost var before := crc;
      crc := crc ^ Raised(data[i]);
      ghost var mixed := crc;
      NoShiftsUp(mixed);
      for k := 0 to 8
        invariant crc == ShiftsUp(mixed, k)
      {
        ShiftsUpLast(mixed, k);
        ShiftUpInFull(crc);
        if crc & 0x8000 != 0 {
          crc := (crc << 1) ^ 0x1021;
        } else {
          crc := crc << 1;
        }
      }
      ByteTogetherUp(before, data[i]);
      XmodemNext(data[..i], data[i]);
      assert data[..i + 1] == data[..i] + [data[i]];
    }
    assert data[..|data|] == data;
  }

  lemma ShiftUpInFull(r: bv16)
    ensures ShiftUp(r) == if r & 0x8000 != 0 then (r << 1) ^ 0x1021 else r << 1
  {
  }

  lemma EmptyXmodem()
    ensures Xmodem([]) == 0
  {
  }

  lemma NoShiftsUp(r: bv16)
    ensures ShiftsUp(r, 0) == r
  {
  }

  // ---------- Frames ----------

  predicate Framing(b: byte) {
    b == 0x28 || b == 0x0D || b == 0x0A
  }

  function Bump(b: byte): byte {
    if Framing(b) then b + 1 else b
  }

  function VoltronicCrc(data: seq<byte>): (t: seq<byte>)
    ensures |t| == 2
    ensures !Framing(t[0]) && !Framing(t[1])
  {
    [Bump(HighByte(Xmodem(data))), Bump(LowByte(Xmodem(data)))]
  }

  function FrameCommand(payload: seq<byte>): seq<byte> {
    payload + VoltronicCrc(payload) + [CR]
  }

  datatype StripError = EmptyFrame | TooShort | BadCrc

  function VerifyAndStrip(frame: seq<byte>): Result<seq<byte>, StripError> {
    if frame == [] then Failure(EmptyFrame)
    else
      var body := if frame[|frame| - 1] == CR then frame[..|frame| - 1] else frame;
      if |body| < 3 then Failure(TooShort)
      else if body[|body| - 2..] != VoltronicCrc(body[..|body| - 2]) then Failure(BadCrc)
      else Success(body[..|body| - 2])
  }

  /** A frame is accepted exactly when it is a non-empty payload with its trailer, with or without the CR,
      and what comes back is that payload. */
  lemma StripsExactlyFrames(frame: seq<byte>, payload: seq<byte>)
    ensures VerifyAndStrip(frame) == Success(payload)
       <==> payload != [] && (frame == FrameCommand(payload) || frame == payload + VoltronicCrc(payload))
  {
    hide VoltronicCrc;
    var t := VoltronicCrc(payload);
    if payload != [] && (frame == FrameCommand(payload) || frame == payload + t) {
      var body := payload + t;
      assert body[..|body| - 2] == payload && body[|body| - 2..] == t;
      assert frame == body + [CR] ==> frame[..|frame| - 1] == body;
    }
    if VerifyAndStrip(frame) == Success(payload) {
      var body := if frame[|frame| - 1] == CR then frame[..|frame| - 1] else frame;
      assert body == body[..|body| - 2] + body[|body| - 2..];
      assert frame == body || frame == body + [CR];
    }
  }

  /** What is wrong with a frame that is not accepted. */
  lemma StripFailures(frame: seq<byte>)
    ensures var r, body := VerifyAndStrip(frame), |frame| - (if frame != [] && frame[|frame| - 1] == CR then 1 else 0);
            && (r == Failure(EmptyFrame) <==> frame == [])
            && (r == Failure(TooShort) <==> frame != [] && body < 3)
            && (r == Failure(BadCrc) ==> body >= 3)
  {
  }

  /** The only CR of a framed CR-free payload is the last byte. */
  lemma FirstCrEndsTheFrame(payload: seq<byte>, i: nat)
    requires CR !in payload && i < |FrameCommand(payload)|
    ensures FrameCommand(payload)[i] == CR <==> i == |FrameCommand(payload)| - 1
  {
    hide VoltronicCrc;
    if i < |payload| {
      assert FrameCommand(payload)[i] == payload[i];
    }
  }

  function Stream(payloads: seq<seq<byte>>): seq<byte>
    decreases |payloads|
  {
    if payloads == [] then [] else FrameCommand(payloads[0]) + Stream(payloads[1..])
  }

  lemma NoLonger(p: seq<byte>, q: seq<byte>, s: seq<byte>, t: seq<byte>)
    requires CR !in p && CR !in q
    requires FrameCommand(p) + s == FrameCommand(q) + t
    ensures |FrameCommand(q)| <= |FrameCommand(p)|
  {
    hide VoltronicCrc, FrameCommand;
    var f, g := FrameCommand(p), FrameCommand(q);
    FrameLength(p);
    var k := |f| - 1;
    FirstCrEndsTheFrame(p, k);
    assert (f + s)[k] == f[k];
    if k < |g| {
      assert (g + t)[k] == g[k];
      FirstCrEndsTheFrame(q, k);
    }
  }

  /** A framed CR-free payload, followed by anything, can be cut off in only one way. */
  lemma FirstFrameIsUnique(p: seq<byte>, q: seq<byte>, s: seq<byte>, t: seq<byte>)
    requires CR !in p && CR !in q
    requires FrameCommand(p) + s == FrameCommand(q) + t
    ensures p == q && s == t
  {
    hide VoltronicCrc, FrameCommand;
    var f, g := FrameCommand(p), FrameCommand(q);
    NoLonger(p, q, s, t);
    NoLonger(q, p, t, s);
    assert f == (f + s)[..|f|] && g == (g + t)[..|g|];
    assert s == (f + s)[|f|..] && t == (g + t)[|g|..];
    FrameLength(p);
    FrameLength(q);
  }

  lemma FrameLength(p: seq<byte>)
    ensures |FrameCommand(p)| == |p| + 3
    ensures FrameCommand(p)[..|p|] == p
  {
    hide VoltronicCrc;
  }

  lemma {:induction false} StreamIsUnique(ps: seq<seq<byte>>, qs: seq<seq<byte>>)
    requires forall p <- ps :: CR !in p
    requires forall q <- qs :: CR !in q
    requires Stream(ps) == Stream(qs)
    ensures ps == qs
    decreases |ps|
  {
    hide FrameCommand;
    if ps == [] {
      if qs != [] {
        FrameLength(qs[0]);
      }
    } else if qs == [] {
      FrameLength(ps[0]);
    } else {
      assert ps[0] in ps && qs[0] in qs;
      FirstFrameIsUnique(ps[0], qs[0], Stream(ps[1..]), Stream(qs[1..]));
      assert forall p <- ps[1..] :: p in ps;
      assert forall q <- qs[1..] :: q in qs;
      StreamIsUnique(ps[1..], qs[1..]);
      assert ps == [ps[0]] + ps[1..] && qs == [qs[0]] + qs[1..];
    }
  }

  // ---------- Which trailer it is ----------

  lemma ShiftUpInjective(a: bv16, b: bv16)
    requires ShiftUp(a) == ShiftUp(b)
    ensures a == b
  {
    if Top(a) {
      if Top(b) {} else {}
    } else {
      if Top(b) {} else {}
    }
  }

  lemma {:induction false} ShiftsUpInjective(a: bv16, b: bv16, k: nat)
    requires ShiftsUp(a, k) == ShiftsUp(b, k)
    ensures a == b
    decreases k
  {
    hide ShiftUp;
    if k > 0 {
      ShiftsUpInjective(ShiftUp(a), ShiftUp(b), k - 1);
      ShiftUpInjective(a, b);
    }
  }

  lemma {:induction false} ShiftsUpOfZero(k: nat)
    ensures ShiftsUp(0, k) == 0
  {
    if k > 0 {
      ShiftsUpOfZero(k - 1);
    }
  }

  /** With nothing but zeros falling out, eight shifts move the low byte up. */
  lemma LowByteRises(w: bv16)
    requires w < 256
    ensures ShiftsUp(w, 8) == w << 8
  {
    hide Double, Top;
    var w1 := Double(w); var w2 := Double(w1); var w3 := Double(w2); var w4 := Double(w3);
    var w5 := Double(w4); var w6 := Double(w5); var w7 := Double(w6);
    LowByteDoublings(w);
    assert ShiftsUp(w6, 2) == Double(w7);
    assert ShiftsUp(w4, 4) == Double(w7);
    assert ShiftsUp(w2, 6) == Double(w7);
  }

  lemma LowByteDoublings(w: bv16)
    requires w < 256
    ensures var w1 := Double(w); var w2 := Double(w1); var w3 := Double(w2); var w4 := Double(w3);
            var w5 := Double(w4); var w6 := Double(w5); var w7 := Double(w6);
            && !Top(w) && !Top(w1) && !Top(w2) && !Top(w3) && !Top(w4) && !Top(w5) && !Top(w6) && !Top(w7)
            && Double(w7) == w << 8
  {
  }

  lemma SplitUp(r: bv16, hi: bv16, lo: bv16)
    requires hi < 256 && lo < 256
    ensures Xor(r, hi << 8) == lo <==> hi == r >> 8 && lo == r & 0xFF
  {
  }

  lemma RaisedSplits(r: bv16, hi: byte, lo: byte)
    ensures Xor(r, Raised(hi)) == Widen(lo) <==> hi == HighByte(r) && lo == LowByte(r)
  {
    hide Xor, Widen, HighByte, LowByte;
    LowWiden(hi);
    LowWiden(lo);
    SplitUp(r, Widen(hi), Widen(lo));
    OwnBytesWiden(r, hi, lo);
  }

  lemma RaisedRises(b: byte)
    ensures ShiftsUp(Widen(b), 8) == Raised(b)
  {
    hide ShiftsUp, Widen;
    LowWiden(b);
    LowByteRises(Widen(b));
  }

  /** Two bytes clear the register exactly when they are its own, high byte first. */
  lemma ClearedExactlyByOwnBytes(r: bv16, hi: byte, lo: byte)
    ensures RunUp(RunUp(r, BitsDown(hi)), BitsDown(lo)) == 0 <==> hi == HighByte(r) && lo == LowByte(r)
  {
    hide *;
    var mid := RunUp(r, BitsDown(hi));
    ByteTogetherUp(r, hi);
    ByteTogetherUp(mid, lo);
    ShiftsUpOfZero(8);
    XorIsZero(mid, Raised(lo));
    RaisedRises(lo);
    RaisedSplits(r, hi, lo);
    if RunUp(mid, BitsDown(lo)) == 0 {
      ShiftsUpInjective(Xor(mid, Raised(lo)), 0, 8);
      ShiftsUpInjective(Xor(r, Raised(hi)), Widen(lo), 8);
    }
  }

  lemma ResidueOf(p: seq<byte>, hi: byte, lo: byte)
    ensures Xmodem(p + [hi, lo]) == 0 <==> hi == HighByte(Xmodem(p)) && lo == LowByte(Xmodem(p))
  {
    hide *;
    XmodemNext(p, hi);
    XmodemNext(p + [hi], lo);
    assert p + [hi] + [lo] == p + [hi, lo];
    ClearedExactlyByOwnBytes(Xmodem(p), hi, lo);
  }

  /** A payload with its trailer leaves no residue exactly when neither byte of its check sum had to be replaced. */
  lemma TrailerClearsExactly(p: seq<byte>)
    ensures Xmodem(p + VoltronicCrc(p)) == 0 <==> !Framing(HighByte(Xmodem(p))) && !Framing(LowByte(Xmodem(p)))
  {
    hide Xmodem, HighByte, LowByte;
    var t := VoltronicCrc(p);
    assert t == [t[0], t[1]];
    ResidueOf(p, t[0], t[1]);
  }

  /** Equal, or a framing byte and its stand-in. */
  predicate Confusable(a: byte, b: byte) {
    a == b || (Framing(a) && b == a + 1) || (Framing(b) && a == b + 1)
  }

  /** In every case exactly one pair of bytes confusable with the trailer, byte by byte, leaves no residue. */
  lemma OneConfusablePairClears(p: seq<byte>, hi: byte, lo: byte)
    ensures var t, h, l := VoltronicCrc(p), HighByte(Xmodem(p)), LowByte(Xmodem(p));
            && Confusable(h, t[0]) && Confusable(l, t[1]) && Xmodem(p + [h, l]) == 0
            && (Confusable(hi, t[0]) && Confusable(lo, t[1]) && Xmodem(p + [hi, lo]) == 0 ==> hi == h && lo == l)
  {
    hide Xmodem, HighByte, LowByte;
    ResidueOf(p, hi, lo);
    ResidueOf(p, HighByte(Xmodem(p)), LowByte(Xmodem(p)));
  }

  lemma ByteUp(r: bv16, b: byte, w: bv16)
    requires Widen(b) == w
    ensures RunUp(r, BitsDown(b)) == ShiftsUp(Xor(r, w << 8), 8)
  {
    hide RunUp, BitsDown, ShiftsUp, Xor, Widen;
    ByteTogetherUp(r, b);
  }

  /** The status request: `QPIGS`, check sum 0xB7A9. */
  lemma StatusRequest()
    ensures FrameCommand([0x51, 0x50, 0x49, 0x47, 0x53]) == [0x51, 0x50, 0x49, 0x47, 0x53, 0xB7, 0xA9, 0x0D]
  {
    hide RunUp, BitsDown, Widen, Xmodem, HighByte, LowByte;
    var p: seq<byte> := [0x51, 0x50, 0x49, 0x47, 0x53];
    Widen51();
    Widen50();
    Widen49();
    Widen47();
    Widen53();
    WidenB7();
    WidenA9();
    EmptyXmodem();
    ByteUp(0x0, 0x51, 0x51);
    assert ShiftsUp(0x5100, 8) == 0x4ad4;
    XmodemNext([], 0x51);
    assert [] + [0x51] == [0x51];
    ByteUp(0x4ad4, 0x50, 0x50);
    assert ShiftsUp(0x1ad4, 8) == 0x677b;
    XmodemNext([0x51], 0x50);
    assert [0x51] + [0x50] == [0x51, 0x50];
    ByteUp(0x677b, 0x49, 0x49);
    assert ShiftsUp(0x2e7b, 8) == 0xbeac;
    XmodemNext([0x51, 0x50], 0x49);
    assert [0x51, 0x50] + [0x49] == [0x51, 0x50, 0x49];
    ByteUp(0xbeac, 0x47, 0x47);
    assert ShiftsUp(0xf9ac, 8) == 0xd236;
    XmodemNext([0x51, 0x50, 0x49], 0x47);
    assert [0x51, 0x50, 0x49] + [0x47] == [0x51, 0x50, 0x49, 0x47];
    ByteUp(0xd236, 0x53, 0x53);
    assert ShiftsUp(0x8136, 8) == 0xb7a9;
    XmodemNext([0x51, 0x50, 0x49, 0x47], 0x53);
    assert [0x51, 0x50, 0x49, 0x47] + [0x53] == [0x51, 0x50, 0x49, 0x47, 0x53];
    OwnBytesWiden(0xB7A9, 0xB7, 0xA9);
  }

  lemma Widen51()
    ensures Widen(0x51) == 0x51
  {
    WordIs(0x51, [true, false, false, false, true, false, true, false], 0x51);
  }

  lemma Widen50()
    ensures Widen(0x50) == 0x50
  {
    WordIs(0x50, [false, false, false, false, true, false, true, false], 0x50);
  }

  lemma Widen49()
    ensures Widen(0x49) == 0x49
  {
    WordIs(0x49, [true, false, false, true, false, false, true, false], 0x49);
  }

  lemma Widen47()
    ensures Widen(0x47) == 0x47
  {
    WordIs(0x47, [true, true, true, false, false, false, true, false], 0x47);
  }

  lemma Widen53()
    ensures Widen(0x53) == 0x53
  {
    WordIs(0x53, [true, true, false, false, true, false, true, false], 0x53);
  }

  lemma WidenB7()
    ensures Widen(0xB7) == 0xB7
  {
    WordIs(0xB7, [true, true, true, false, true, true, false, true], 0xB7);
  }

  lemma WidenA9()
    ensures Widen(0xA9) == 0xA9
  {
    WordIs(0xA9, [true, false, false, true, false, true, false, true], 0xA9);
  }

  // ---------- What the substitution costs ----------

  /** Two payloads carry the same trailer exactly when their check-sum bytes are confusable, one by one. */
  lemma SameTrailer(p: seq<byte>, q: seq<byte>)
    ensures VoltronicCrc(p) == VoltronicCrc(q)
       <==> Confusable(HighByte(Xmodem(p)), HighByte(Xmodem(q))) && Confusable(LowByte(Xmodem(p)), LowByte(Xmodem(q)))
  {
    hide Xmodem, HighByte, LowByte;
    var t, u := VoltronicCrc(p), VoltronicCrc(q);
    assert t == u <==> t[0] == u[0] && t[1] == u[1];
  }
}

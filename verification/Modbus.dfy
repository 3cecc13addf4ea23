/** Frame building and reply checking of `solar_monitor/modbus.py`. */
module Modbus {
  import opened Wrappers
  import opened Crc
  import opened CrcDetection

  datatype FrameError =
    | NotAByte
    | ValueOutOfRange
    | ShortResponse
    | WrongSlave
    | DeviceException(code: byte)
    | UnexpectedFunction
    | CrcMismatch
    | WrongLength
    | WrongByteCount

  const READ_HOLDING: byte := 3
  const WRITE_SINGLE: byte := 6

  /** A register value. */
  type word = n: nat | n < 0x1_0000

  function HighOf(n: int): byte {
    n / 256 % 256
  }

  function LowOf(n: int): byte {
    n % 256
  }

  function Word16(hi: byte, lo: byte): word {
    hi * 256 + lo
  }

  function Framed(head: seq<byte>): (frame: seq<byte>)
    ensures |frame| == |head| + 2
  {
    head + Trailer(head)
  }

  /** A request of function `fc` about two sixteen-bit fields; wider integers are cut to sixteen bits. */
  function Request(slaveId: byte, fc: byte, field1: int, field2: int): (frame: seq<byte>)
    ensures |frame| == 8
  {
    Framed([slaveId, fc, HighOf(field1), LowOf(field1), HighOf(field2), LowOf(field2)])
  }

  function BuildReadHolding(slaveId: int, register: int, count: int): Result<seq<byte>, FrameError> {
    if 0 <= slaveId < 256 then Success(Request(slaveId, READ_HOLDING, register, count)) else Failure(NotAByte)
  }

  function BuildWriteSingle(slaveId: int, register: int, value: int): Result<seq<byte>, FrameError> {
    if !(0 <= value <= 0xFFFF) then Failure(ValueOutOfRange)
    else if 0 <= slaveId < 256 then Success(Request(slaveId, WRITE_SINGLE, register, value))
    else Failure(NotAByte)
  }

  function ExpectedReadReplyLength(words: int): int {
    1 + 1 + 1 + words * 2 + 2
  }

  /** `fc | 0x80`. */
  function ExceptionCode(fc: byte): byte {
    if fc < 128 then fc + 128 else fc
  }

  function VerifyResponse(resp: seq<byte>, slaveId: int, expectedFc: byte, expectedLen: Option<int>)
    : Result<(), FrameError>
  {
    if |resp| < 5 then Failure(ShortResponse)
    else if resp[0] != slaveId then Failure(WrongSlave)
    else if resp[1] == ExceptionCode(expectedFc) then Failure(DeviceException(resp[2]))
    else if resp[1] != expectedFc then Failure(UnexpectedFunction)
    else if Trailer(resp[..|resp| - 2]) != resp[|resp| - 2..] then Failure(CrcMismatch)
    else if expectedLen.Some? && |resp| != expectedLen.value then Failure(WrongLength)
    else if expectedLen.Some? && resp[2] != expectedLen.value - 5 then Failure(WrongByteCount)
    else Success(())
  }

  // ---------- Sixteen-bit fields survive the frame ----------

  lemma Word16RoundTrip(n: int)
    ensures Word16(HighOf(n), LowOf(n)) == n % 0x1_0000
  {
    assert n == 256 * (n / 256) + n % 256;
    assert n / 256 == 256 * (n / 256 / 256) + n / 256 % 256;
    var q := n / 256 / 256;
    var r := 256 * (n / 256 % 256) + n % 256;
    assert n == 0x1_0000 * q + r && 0 <= r < 0x1_0000;
  }

  lemma RequestFields(slaveId: byte, fc: byte, field1: int, field2: int)
    ensures var f := Request(slaveId, fc, field1, field2);
            && f[0] == slaveId && f[1] == fc
            && Word16(f[2], f[3]) == field1 % 0x1_0000
            && Word16(f[4], f[5]) == field2 % 0x1_0000
            && Accepts(f)
  {
    hide Trailer, Accepts;
    Word16RoundTrip(field1);
    Word16RoundTrip(field2);
    OwnTrailerAccepted([slaveId, fc, HighOf(field1), LowOf(field1), HighOf(field2), LowOf(field2)]);
  }

  // ---------- Known requests ----------

  /** One register from 0 of slave 1. */
  lemma FirstKnownRequest()
    ensures BuildReadHolding(1, 0, 1) == Success([0x01, 0x03, 0x00, 0x00, 0x00, 0x01, 0x84, 0x0A])
  {
    hide Run, ByteBits, Widen, Register, LowByte, HighByte;
    Widen00();
    Widen01();
    Widen03();
    Widen0A();
    Widen84();
    EmptyMessage();
    RunByte(0xffff, 0x1, 0x1);
    assert Shifts(0xfffe, 8) == 0x807e;
    RegisterNext([], 0x1);
    assert [] + [0x1] == [0x01];
    RunByte(0x807e, 0x3, 0x3);
    assert Shifts(0x807d, 8) == 0x2140;
    RegisterNext([0x01], 0x3);
    assert [0x01] + [0x3] == [0x01, 0x03];
    RunByte(0x2140, 0x0, 0x0);
    assert Shifts(0x2140, 8) == 0xf020;
    RegisterNext([0x01, 0x03], 0x0);
    assert [0x01, 0x03] + [0x0] == [0x01, 0x03, 0x00];
    RunByte(0xf020, 0x0, 0x0);
    assert Shifts(0xf020, 8) == 0xd8f1;
    RegisterNext([0x01, 0x03, 0x00], 0x0);
    assert [0x01, 0x03, 0x00] + [0x0] == [0x01, 0x03, 0x00, 0x00];
    RunByte(0xd8f1, 0x0, 0x0);
    assert Shifts(0xd8f1, 8) == 0x8419;
    RegisterNext([0x01, 0x03, 0x00, 0x00], 0x0);
    assert [0x01, 0x03, 0x00, 0x00] + [0x0] == [0x01, 0x03, 0x00, 0x00, 0x00];
    RunByte(0x8419, 0x1, 0x1);
    assert Shifts(0x8418, 8) == 0xa84;
    RegisterNext([0x01, 0x03, 0x00, 0x00, 0x00], 0x1);
    assert [0x01, 0x03, 0x00, 0x00, 0x00] + [0x1] == [0x01, 0x03, 0x00, 0x00, 0x00, 0x01];
    OwnBytesWiden(0xa84, 0xa, 0x84);
    assert Trailer([0x01, 0x03, 0x00, 0x00, 0x00, 0x01]) == [0x84, 0x0A];
    assert [0x01, 0x03, 0x00, 0x00, 0x00, 0x01] + [0x84, 0x0A] == [0x01, 0x03, 0x00, 0x00, 0x00, 0x01, 0x84, 0x0A];
  }

  /** Three registers from 0x6B of slave 0x11. */
  lemma SecondKnownRequest()
    ensures BuildReadHolding(0x11, 0x6B, 3) == Success([0x11, 0x03, 0x00, 0x6B, 0x00, 0x03, 0x76, 0x87])
  {
    hide Run, ByteBits, Widen, Register, LowByte, HighByte;
    Widen00();
    Widen03();
    Widen11();
    Widen6B();
    Widen76();
    Widen87();
    EmptyMessage();
    RunByte(0xffff, 0x11, 0x11);
    assert Shifts(0xffee, 8) == 0x4c7f;
    RegisterNext([], 0x11);
    assert [] + [0x11] == [0x11];
    RunByte(0x4c7f, 0x3, 0x3);
    assert Shifts(0x4c7c, 8) == 0xe14d;
    RegisterNext([0x11], 0x3);
    assert [0x11] + [0x3] == [0x11, 0x03];
    RunByte(0xe14d, 0x0, 0x0);
    assert Shifts(0xe14d, 8) == 0x3521;
    RegisterNext([0x11, 0x03], 0x0);
    assert [0x11, 0x03] + [0x0] == [0x11, 0x03, 0x00];
    RunByte(0x3521, 0x6b, 0x6b);
    assert Shifts(0x354a, 8) == 0xf7b4;
    RegisterNext([0x11, 0x03, 0x00], 0x6b);
    assert [0x11, 0x03, 0x00] + [0x6b] == [0x11, 0x03, 0x00, 0x6B];
    RunByte(0xf7b4, 0x0, 0x0);
    assert Shifts(0xf7b4, 8) == 0x77f7;
    RegisterNext([0x11, 0x03, 0x00, 0x6B], 0x0);
    assert [0x11, 0x03, 0x00, 0x6B] + [0x0] == [0x11, 0x03, 0x00, 0x6B, 0x00];
    RunByte(0x77f7, 0x3, 0x3);
    assert Shifts(0x77f4, 8) == 0x8776;
    RegisterNext([0x11, 0x03, 0x00, 0x6B, 0x00], 0x3);
    assert [0x11, 0x03, 0x00, 0x6B, 0x00] + [0x3] == [0x11, 0x03, 0x00, 0x6B, 0x00, 0x03];
    OwnBytesWiden(0x8776, 0x87, 0x76);
    assert Trailer([0x11, 0x03, 0x00, 0x6B, 0x00, 0x03]) == [0x76, 0x87];
    assert [0x11, 0x03, 0x00, 0x6B, 0x00, 0x03] + [0x76, 0x87] == [0x11, 0x03, 0x00, 0x6B, 0x00, 0x03, 0x76, 0x87];
  }

  lemma Widen01()
    ensures Widen(0x01) == 0x01
  {
    WordIs(0x01, [true, false, false, false, false, false, false, false], 0x01);
  }

  lemma Widen03()
    ensures Widen(0x03) == 0x03
  {
    WordIs(0x03, [true, true, false, false, false, false, false, false], 0x03);
  }

  lemma Widen00()
    ensures Widen(0x00) == 0x00
  {
    WordIs(0x00, [false, false, false, false, false, false, false, false], 0x00);
  }

  lemma Widen11()
    ensures Widen(0x11) == 0x11
  {
    WordIs(0x11, [true, false, false, false, true, false, false, false], 0x11);
  }

  lemma Widen6B()
    ensures Widen(0x6B) == 0x6B
  {
    WordIs(0x6B, [true, true, false, true, false, true, true, false], 0x6B);
  }

  lemma Widen84()
    ensures Widen(0x84) == 0x84
  {
    WordIs(0x84, [false, false, true, false, false, false, false, true], 0x84);
  }

  lemma Widen0A()
    ensures Widen(0x0A) == 0x0A
  {
    WordIs(0x0A, [false, true, false, true, false, false, false, false], 0x0A);
  }

  lemma Widen76()
    ensures Widen(0x76) == 0x76
  {
    WordIs(0x76, [false, true, true, false, true, true, true, false], 0x76);
  }

  lemma Widen87()
    ensures Widen(0x87) == 0x87
  {
    WordIs(0x87, [true, true, true, false, false, false, false, true], 0x87);
  }

  /** A write is function 6, and answered by function 6. */
  lemma WriteIsFunctionSix(slaveId: byte, register: int, value: int)
    requires 0 <= value < 0x1_0000
    ensures var built := BuildWriteSingle(slaveId, register, value);
            && built.Success? && built.value[1] == 6
            && VerifyResponse(built.value, slaveId, 6, None).Success?
  {
    hide Request, Accepts;
    RequestFields(slaveId, 6, register, value);
    VerifiedWithoutLength(Request(slaveId, 6, register, value), slaveId, 6);
  }

  // ---------- What a verified reply is ----------

  /** A reply of function `fc` that carries a byte count and `data`. */
  function DataReply(slaveId: byte, fc: byte, data: seq<byte>): (frame: seq<byte>)
    requires |data| < 256
    ensures |frame| == |data| + 5
  {
    Framed([slaveId, fc, |data|] + data)
  }

  /** The reply of a device to a read of `data` (the register contents, high bytes first). */
  function ReadReply(slaveId: byte, data: seq<byte>): seq<byte>
    requires |data| < 256
  {
    DataReply(slaveId, READ_HOLDING, data)
  }

  /** With an expected length, a reply passes exactly when it is the well-formed reply of the function asked for,
      carrying its own data bytes; no reply passes as an exception code. */
  lemma VerifiedReply(resp: seq<byte>, slaveId: byte, fc: byte, len: int)
    ensures VerifyResponse(resp, slaveId, fc, Some(len)).Success?
       <==> fc < 128 && 5 <= len < 261 && |resp| == len && resp == DataReply(slaveId, fc, resp[3..len - 2])
  {
    hide Trailer;
    if fc < 128 && 5 <= len < 261 && |resp| == len {
      var data := resp[3..len - 2];
      var head := [slaveId, fc, |data|] + data;
      assert resp == resp[..len - 2] + resp[len - 2..];
      if resp == DataReply(slaveId, fc, data) {
        assert resp[..len - 2] == head;
        assert resp[len - 2..] == Trailer(head);
        assert resp[0] == head[0] && resp[1] == head[1] && resp[2] == head[2];
      } else if resp[0] == slaveId && resp[1] == fc && resp[2] == len - 5 {
        assert resp[..3] == [slaveId, fc, |data|];
        assert resp[..len - 2] == resp[..3] + data;
      }
    }
  }

  /** So a reply to a read of `words` registers carries exactly these, and can only exist up to 127 of them. */
  lemma VerifiedReadReply(resp: seq<byte>, slaveId: byte, words: nat)
    ensures VerifyResponse(resp, slaveId, READ_HOLDING, Some(ExpectedReadReplyLength(words))).Success?
       <==> |resp| == 2 * words + 5 && words < 128 && resp == ReadReply(slaveId, resp[3..3 + 2 * words])
  {
    hide DataReply, VerifyResponse;
    VerifiedReply(resp, slaveId, READ_HOLDING, ExpectedReadReplyLength(words));
  }

  /** Without an expected length, any intact frame of the slave and function passes. */
  lemma VerifiedWithoutLength(resp: seq<byte>, slaveId: byte, fc: byte)
    ensures VerifyResponse(resp, slaveId, fc, None).Success?
       <==> fc < 128 && |resp| >= 5 && resp[0] == slaveId && resp[1] == fc && Accepts(resp)
  {
    hide Trailer;
  }

  /** What is wrong with a reply, in the order it is looked at. */
  lemma FailuresTold(resp: seq<byte>, slaveId: int, fc: byte, len: Option<int>)
    ensures var r := VerifyResponse(resp, slaveId, fc, len);
            && (r == Failure(ShortResponse) <==> |resp| < 5)
            && (r == Failure(WrongSlave) <==> |resp| >= 5 && resp[0] != slaveId)
            && (r == Failure(CrcMismatch) ==> !Accepts(resp) && resp[0] == slaveId && resp[1] == fc)
            && (r == Failure(WrongLength) ==> Accepts(resp) && len.Some? && |resp| != len.value)
            && (r == Failure(WrongByteCount) ==> Accepts(resp) && len == Some(|resp|) && resp[2] != |resp| - 5)
            && (r.Failure? ==> r.error != NotAByte && r.error != ValueOutOfRange)
  {
    hide Trailer;
  }

  /** The device's refusal is told from every other failure, and its code is reported. */
  lemma RefusalIsReported(resp: seq<byte>, slaveId: byte, fc: byte, len: Option<int>, code: byte)
    requires fc < 128
    ensures VerifyResponse(resp, slaveId, fc, len) == Failure(DeviceException(code))
       <==> |resp| >= 5 && resp[0] == slaveId && resp[1] == fc + 128 && resp[2] == code
  {
    hide Trailer;
  }

  /** `got` is `reply` after a burst of at most sixteen bits, or after an odd number of flipped bits. */
  ghost predicate Damaged(reply: seq<byte>, got: seq<byte>) {
    && |got| == |reply|
    && got != reply
    && ((exists start: int :: DifferWithin(Bits(reply), Bits(got), start, 16))
        || Distance(Bits(reply), Bits(got)) % 2 == 1)
  }

  /** A frame with a correct trailer never passes after damage, whoever and whatever it is checked for. */
  lemma DamageIsNoticed(reply: seq<byte>, got: seq<byte>, slaveId: int, fc: byte, len: Option<int>)
    requires Accepts(reply) && Damaged(reply, got)
    ensures VerifyResponse(got, slaveId, fc, len).Failure?
  {
    if Distance(Bits(reply), Bits(got)) % 2 == 1 {
      OddFlipsAreDetected(reply, got);
    } else {
      var start: int :| DifferWithin(Bits(reply), Bits(got), start, 16);
      BurstsAreDetected(reply, got, start);
    }
  }
}

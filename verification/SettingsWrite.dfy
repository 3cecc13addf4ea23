/** `solar_monitor/settings_write.py`: write a register, tolerate a lost acknowledgement, read it back. */
module SettingsWrite {
  import opened Wrappers
  import opened Crc
  import opened Modbus
  import FakeSlave

  // ---------- The device and the link ----------

  type Registers = map<nat, word>

  /** What a device makes of a request. `store` sees the register, its contents and the value asked for, and gives
      the value kept, or `None` for a refusal; `code` is sent with every refusal. */
  datatype Device = Device(store: (nat, word, word) -> Option<word>, readable: nat -> bool, code: byte)

  /** What one request meets on its way: `Garbled(got)` delivers `got` in place of the reply, damaged in transit;
      `Late(got)` delivers a frame left over from before. */
  datatype Fate = Delivered | RequestLost | ReplyLost | Garbled(got: seq<byte>) | Late(got: seq<byte>) | LinkFailed

  /** What the transport hands back: the bytes, `TransportTimeout`, or any other exception. */
  datatype Received = Reply(bytes: seq<byte>) | Timeout | Broken

  function Contents(registers: Registers, register: int): word {
    FakeSlave.Lookup(registers, register % 0x1_0000)
  }

  function Kept(device: Device, registers: Registers, register: int, value: word): Option<word> {
    device.store(register % 0x1_0000, Contents(registers, register), value)
  }

  /** The registers after one good request. */
  function Stored(registers: Registers, device: Device, frame: seq<byte>): Registers
    requires |frame| == 8
  {
    var reg := Word16(frame[2], frame[3]);
    if frame[1] != WRITE_SINGLE then registers
    else
      match Kept(device, registers, reg, Word16(frame[4], frame[5]))
      case None => registers
      case Some(v) => registers[reg := v]
  }

  function Refusal(slaveId: byte, fc: byte, code: byte): (frame: seq<byte>)
    ensures |frame| == 5
  {
    Framed([slaveId, ExceptionCode(fc), code])
  }

  /** The reply to one good request: a write is echoed, a read of one register answered with its contents,
      and either may be refused with an exception. */
  function Answer(registers: Registers, device: Device, frame: seq<byte>): seq<byte>
    requires |frame| == 8
  {
    var reg := Word16(frame[2], frame[3]);
    if frame[1] == WRITE_SINGLE then
      if Kept(device, registers, reg, Word16(frame[4], frame[5])).Some? then frame
      else Refusal(frame[0], WRITE_SINGLE, device.code)
    else if device.readable(reg) then
      var v := Contents(registers, reg);
      ReadReply(frame[0], [HighOf(v), LowOf(v)])
    else Refusal(frame[0], READ_HOLDING, device.code)
  }

  predicate Reaches(fate: Fate) {
    !fate.RequestLost? && !fate.LinkFailed?
  }

  function Outcome(reply: seq<byte>, fate: Fate): Received {
    match fate
    case Delivered => Reply(reply)
    case RequestLost => Timeout
    case ReplyLost => Timeout
    case Garbled(got) => Reply(got)
    case Late(got) => Reply(got)
    case LinkFailed => Broken
  }

  /** The link may lose or delay anything, but what it damages it damages by a short burst or an odd number of flips. */
  ghost predicate Plausible(reply: seq<byte>, fate: Fate) {
    fate.Garbled? ==> Damaged(reply, fate.got)
  }

  class Bus {
    var registers: Registers
    const device: Device

    constructor (registers: Registers, device: Device)
      ensures this.registers == registers && this.device == device
    {
      this.registers := registers;
      this.device := device;
    }

    method Exchange(frame: seq<byte>, fate: Fate) returns (r: Received)
      requires |frame| == 8
      modifies this
      ensures registers == if Reaches(fate) then Stored(old(registers), device, frame) else old(registers)
      ensures r == Outcome(Answer(old(registers), device, frame), fate)
    {
      r := Outcome(Answer(registers, device, frame), fate);
      if Reaches(fate) {
        registers := Stored(registers, device, frame);
      }
    }

    /** Pass 1: send the write; `None` stands for a transport that failed outright. */
    method SendWrite(slaveId: byte, register: int, value: word, fate: Fate) returns (ackSeen: Option<bool>)
      requires Plausible(Answer(registers, device, WriteRequest(slaveId, register, value)), fate)
      modifies this
      ensures registers == RegistersAfter(old(registers), device, register, value, fate)
      ensures ackSeen == if fate.LinkFailed? then None
                         else Some(Acked(slaveId, Kept(device, old(registers), register, value).Some?, fate))
    {
      hide Plausible, Answer, Request, VerifyResponse;
      var frame := Request(slaveId, WRITE_SINGLE, register, value);
      WriteIsServed(registers, device, slaveId, register, value);
      AckVerifies(registers, device, slaveId, register, value, fate);
      var resp := Exchange(frame, fate);
      match resp {
        case Broken => return None;
        case Timeout => return Some(false);
        case Reply(bytes) =>
          var checked := VerifyResponse(bytes, slaveId, WRITE_SINGLE, None);
          return Some(checked.Success?);
      }
    }

    /** Pass 2: read the register back. */
    method ReadBack(slaveId: byte, register: int, fate: Fate) returns (r: Received, confirmed: Option<word>)
      requires Plausible(Answer(registers, device, ReadRequest(slaveId, register)), fate)
      modifies this
      ensures registers == old(registers)
      ensures r == Outcome(Answer(registers, device, ReadRequest(slaveId, register)), fate)
      ensures confirmed == Reading(slaveId, Readable(device, registers, register), fate)
    {
      hide Plausible, Answer, Request, VerifyResponse;
      var built := BuildReadHolding(slaveId, register, 1);
      ReadIsServed(registers, device, slaveId, register);
      ReadBackVerifies(registers, device, slaveId, register, fate);
      r := Exchange(built.value, fate);
      confirmed := None;
      if r.Reply? {
        var checked := VerifyResponse(r.bytes, slaveId, READ_HOLDING, None);
        if checked.Success? {
          VerifiedWithoutLength(r.bytes, slaveId, READ_HOLDING);
          confirmed := Some(Word16(r.bytes[3], r.bytes[4]));
        }
      }
    }

    /** The bytes sent and checked on the way come to no more than `RegistersAfter` and `Expected` say. */
    method WriteSettingRegister(slaveId: int, register: int, value: int, readBack: bool,
                                writeFate: Fate, readFate: Fate)
      returns (r: Result<Report, FrameError>)
      requires Acceptable(slaveId, value) ==>
        && Plausible(Answer(registers, device, WriteRequest(slaveId, register, value)), writeFate)
        && Plausible(Answer(RegistersAfter(registers, device, register, value, writeFate), device,
                            ReadRequest(slaveId, register)), readFate)
      modifies this
      ensures !(0 <= value < 0x1_0000) ==> r == Failure(ValueOutOfRange)
      ensures 0 <= value < 0x1_0000 && !(0 <= slaveId < 256) ==> r == Failure(NotAByte)
      ensures !Acceptable(slaveId, value) ==> registers == old(registers)
      ensures Acceptable(slaveId, value) ==>
        && registers == RegistersAfter(old(registers), device, register, value, writeFate)
        && r == Success(Expected(old(registers), device, slaveId, register, value, readBack, writeFate, readFate))
    {
      hide Plausible, Answer, Kept, Acked, Reading, Readable, RegistersAfter, Request;
      var built := BuildWriteSingle(slaveId, register, value);
      if built.Failure? {
        return Failure(built.error);
      }
      var ackSeen := SendWrite(slaveId, register, value, writeFate);
      if ackSeen.None? {
        return Success(Report(false, None, SendFailed));
      }
      var acked := ackSeen.value;
      if !readBack {
        return Success(Report(acked, None, if acked then AckTrusted else NoAckNoReadBack));
      }
      var rb, confirmed := ReadBack(slaveId, register, readFate);
      if rb.Timeout? {
        return Success(Report(acked, None, if acked then AckOnly else NoAckTimedOut));
      }
      if confirmed.None? {
        return Success(Report(false, None, ReadBackFailed));
      }
      if confirmed.value != value {
        return Success(Report(false, Some(confirmed.value), Differs));
      }
      return Success(Report(true, Some(confirmed.value), Confirmed));
    }
  }

  // ---------- What the write is meant to report ----------

  datatype Detail =
    | Confirmed
    | Differs
    | AckOnly
    | NoAckNoReadBack
    | NoAckTimedOut
    | AckTrusted
    | SendFailed
    | ReadBackFailed

  datatype Report = Report(ok: bool, confirmed: Option<nat>, detail: Detail)

  predicate Acceptable(slaveId: int, value: int) {
    0 <= value < 0x1_0000 && 0 <= slaveId < 256
  }

  function WriteRequest(slaveId: byte, register: int, value: int): (frame: seq<byte>)
    ensures |frame| == 8
  {
    Request(slaveId, WRITE_SINGLE, register, value)
  }

  function ReadRequest(slaveId: byte, register: int): (frame: seq<byte>)
    ensures |frame| == 8
  {
    Request(slaveId, READ_HOLDING, register, 1)
  }

  function RegistersAfter(registers: Registers, device: Device, register: int, value: word, writeFate: Fate): Registers
  {
    var kept := Kept(device, registers, register, value);
    if Reaches(writeFate) && kept.Some? then registers[register % 0x1_0000 := kept.value] else registers
  }

  function Readable(device: Device, registers: Registers, register: int): Option<word> {
    if device.readable(register % 0x1_0000) then Some(Contents(registers, register)) else None
  }

  /** Any intact frame of this slave and function, whatever it answers. */
  predicate Believable(got: seq<byte>, slaveId: byte, fc: byte) {
    |got| >= 5 && got[0] == slaveId && got[1] == fc && Accepts(got)
  }

  predicate Acked(slaveId: byte, accepted: bool, fate: Fate) {
    if fate.Late? then Believable(fate.got, slaveId, WRITE_SINGLE) else fate.Delivered? && accepted
  }

  function Reading(slaveId: byte, answer: Option<word>, fate: Fate): Option<word> {
    match fate
    case Delivered => answer
    case Late(got) => if Believable(got, slaveId, READ_HOLDING) then Some(Word16(got[3], got[4])) else None
    case _ => None
  }

  /** The report in terms of what happened to the two exchanges. */
  function Expected(registers: Registers, device: Device, slaveId: byte, register: int, value: word,
                    readBack: bool, writeFate: Fate, readFate: Fate): Report {
    var acked := Acked(slaveId, Kept(device, registers, register, value).Some?, writeFate);
    var after := RegistersAfter(registers, device, register, value, writeFate);
    var confirmed := Reading(slaveId, Readable(device, after, register), readFate);
    if writeFate.LinkFailed? then Report(false, None, SendFailed)
    else if !readBack then Report(acked, None, if acked then AckTrusted else NoAckNoReadBack)
    else if TimedOut(readFate) then Report(acked, None, if acked then AckOnly else NoAckTimedOut)
    else
      match confirmed
      case None => Report(false, None, ReadBackFailed)
      case Some(v) => Report(v == value, Some(v), if v == value then Confirmed else Differs)
  }

  predicate TimedOut(fate: Fate) {
    fate.RequestLost? || fate.ReplyLost?
  }

  lemma WriteIsServed(registers: Registers, device: Device, slaveId: byte, register: int, value: word)
    ensures var frame := WriteRequest(slaveId, register, value);
            var kept := Kept(device, registers, register, value);
            && Stored(registers, device, frame)
               == (if kept.Some? then registers[register % 0x1_0000 := kept.value] else registers)
            && Answer(registers, device, frame)
               == (if kept.Some? then frame else Refusal(slaveId, WRITE_SINGLE, device.code))
  {
    hide Request, Refusal, Contents, Kept;
    RequestFields(slaveId, WRITE_SINGLE, register, value);
    SameKept(registers, device, register, value);
  }

  lemma SameKept(registers: Registers, device: Device, register: int, value: word)
    ensures Kept(device, registers, register % 0x1_0000, value % 0x1_0000) == Kept(device, registers, register, value)
  {
    hide Contents;
    SameRegister(registers, register);
  }

  lemma SameRegister(registers: Registers, register: int)
    ensures register % 0x1_0000 % 0x1_0000 == register % 0x1_0000
    ensures Contents(registers, register % 0x1_0000) == Contents(registers, register)
  {
  }

  lemma ReadIsServed(registers: Registers, device: Device, slaveId: byte, register: int)
    ensures var frame := ReadRequest(slaveId, register);
            var v := Contents(registers, register);
            && Stored(registers, device, frame) == registers
            && Answer(registers, device, frame)
               == (if device.readable(register % 0x1_0000) then ReadReply(slaveId, [HighOf(v), LowOf(v)])
                   else Refusal(slaveId, READ_HOLDING, device.code))
  {
    hide Request, Refusal, ReadReply, Contents;
    RequestFields(slaveId, READ_HOLDING, register, 1);
    SameRegister(registers, register);
  }

  /** A refusal is an intact frame, of a function nobody asks for. */
  lemma RefusalShape(slaveId: byte, fc: byte, code: byte)
    requires fc < 128
    ensures var frame := Refusal(slaveId, fc, code);
            Accepts(frame) && frame[0] == slaveId && frame[1] == fc + 128
  {
    hide Trailer, Accepts;
    OwnTrailerAccepted([slaveId, ExceptionCode(fc), code]);
  }

  lemma ReadReplyShape(slaveId: byte, v: word)
    ensures var reply := ReadReply(slaveId, [HighOf(v), LowOf(v)]);
            && |reply| == 7 && Accepts(reply)
            && reply[0] == slaveId && reply[1] == READ_HOLDING
            && Word16(reply[3], reply[4]) == v
  {
    hide Trailer, Accepts;
    var head := [slaveId, READ_HOLDING, 2] + [HighOf(v), LowOf(v)];
    OwnTrailerAccepted(head);
    Word16RoundTrip(v);
  }

  /** The check of the acknowledgement passes exactly for an undamaged echo or a late frame that could be one. */
  lemma AckVerifies(registers: Registers, device: Device, slaveId: byte, register: int, value: word, fate: Fate)
    requires Plausible(Answer(registers, device, WriteRequest(slaveId, register, value)), fate)
    ensures var r := Outcome(Answer(registers, device, WriteRequest(slaveId, register, value)), fate);
            r.Reply? ==>
              (VerifyResponse(r.bytes, slaveId, WRITE_SINGLE, None).Success?
               <==> Acked(slaveId, Kept(device, registers, register, value).Some?, fate))
  {
    hide Answer, Damaged, Trailer, Request, Bits, Refusal, Accepts, VerifyResponse, Kept;
    var reply := Answer(registers, device, WriteRequest(slaveId, register, value));
    RequestFields(slaveId, WRITE_SINGLE, register, value);
    WriteIsServed(registers, device, slaveId, register, value);
    RefusalShape(slaveId, WRITE_SINGLE, device.code);
    VerifiedWithoutLength(if fate.Garbled? || fate.Late? then fate.got else reply, slaveId, WRITE_SINGLE);
    if fate.Garbled? {
      DamageIsNoticed(reply, fate.got, slaveId, WRITE_SINGLE, None);
    }
  }

  /** The check of the read-back passes exactly for an undamaged reading or a late frame that could be one. */
  lemma ReadBackVerifies(registers: Registers, device: Device, slaveId: byte, register: int, fate: Fate)
    requires Plausible(Answer(registers, device, ReadRequest(slaveId, register)), fate)
    ensures var r := Outcome(Answer(registers, device, ReadRequest(slaveId, register)), fate);
            var reading := Reading(slaveId, Readable(device, registers, register), fate);
            && (r.Reply? ==> (VerifyResponse(r.bytes, slaveId, READ_HOLDING, None).Success? <==> reading.Some?))
            && (reading.Some? ==>
                  r.Reply? && |r.bytes| >= 5 && Word16(r.bytes[3], r.bytes[4]) == reading.value)
  {
    hide Answer, Damaged, Trailer, Request, Bits, Refusal, ReadReply, Accepts, VerifyResponse, Contents, Word16;
    var reply := Answer(registers, device, ReadRequest(slaveId, register));
    ReadIsServed(registers, device, slaveId, register);
    RefusalShape(slaveId, READ_HOLDING, device.code);
    ReadReplyShape(slaveId, Contents(registers, register));
    VerifiedWithoutLength(if fate.Garbled? || fate.Late? then fate.got else reply, slaveId, READ_HOLDING);
    if fate.Garbled? {
      DamageIsNoticed(reply, fate.got, slaveId, READ_HOLDING, None);
    }
  }

  // ---------- The device of the repository's own verification script ----------

  function Loopback(): Device {
    Device((reg, was, v) => Some(v), reg => true, 0)
  }

  lemma LoopbackKeeps(registers: Registers, register: int, value: word)
    ensures Kept(Loopback(), registers, register, value) == Some(value)
  {
  }

  /** It serves a write like a device that keeps whatever it is sent ... */
  lemma LoopbackServesWrites(s: FakeSlave.State, slaveId: byte, register: int, value: word)
    requires s.buf == [] && !s.stopped
    ensures var frame := WriteRequest(slaveId, register, value);
            FakeSlave.Feed(s, frame) == s.(registers := Stored(s.registers, Loopback(), frame),
                                           replies := s.replies + [Answer(s.registers, Loopback(), frame)])
  {
    hide FakeSlave.Feed, FakeSlave.Serve, Answer, Stored, Request, Accepts, Kept, Loopback, Word16;
    var frame := WriteRequest(slaveId, register, value);
    RequestFields(slaveId, WRITE_SINGLE, register, value);
    LoopbackKeeps(s.registers, register, value);
    WriteIsServed(s.registers, Loopback(), slaveId, register, value);
    FakeSlave.OneFrame(s, frame);
    ServesWrite(s, frame);
  }

  /** ... and a read like one where every register can be read. */
  lemma LoopbackServesReads(s: FakeSlave.State, slaveId: byte, register: int)
    requires s.buf == [] && !s.stopped
    ensures var frame := ReadRequest(slaveId, register);
            FakeSlave.Feed(s, frame) == s.(replies := s.replies + [Answer(s.registers, Loopback(), frame)])
  {
    hide FakeSlave.Feed, FakeSlave.Serve, Answer, Stored, Request, Accepts, ReadReply, Contents, Word16;
    var frame := ReadRequest(slaveId, register);
    RequestFields(slaveId, READ_HOLDING, register, 1);
    ContentsAre(s.registers, register);
    ReadIsServed(s.registers, Loopback(), slaveId, register);
    FakeSlave.OneFrame(s, frame);
    ServesRead(s, frame, Contents(s.registers, register));
  }

  lemma ContentsAre(registers: Registers, register: int)
    ensures Contents(registers, register) == FakeSlave.Lookup(registers, register % 0x1_0000)
  {
  }

  lemma ServesWrite(s: FakeSlave.State, frame: seq<byte>)
    requires |frame| == 8 && Accepts(frame) && frame[1] == WRITE_SINGLE
    ensures FakeSlave.Serve(s, frame)
         == s.(registers := s.registers[Word16(frame[2], frame[3]) := Word16(frame[4], frame[5])],
               replies := s.replies + [frame])
  {
    hide Accepts, ReadReply, FakeSlave.Payload;
  }

  lemma ServesRead(s: FakeSlave.State, frame: seq<byte>, v: word)
    requires |frame| == 8 && Accepts(frame) && frame[1] == READ_HOLDING
    requires Word16(frame[4], frame[5]) == 1 && v == FakeSlave.Lookup(s.registers, Word16(frame[2], frame[3]))
    ensures FakeSlave.Serve(s, frame) == s.(replies := s.replies + [ReadReply(frame[0], [HighOf(v), LowOf(v)])])
  {
    hide Accepts, ReadReply, Word16;
    assert FakeSlave.Payload(s.registers, Word16(frame[2], frame[3]), 1) == [HighOf(v), LowOf(v)];
  }

  // ---------- What a caller may conclude from a report ----------

  /** A confirmed value differs from the register exactly when a late reading of another value was believed; and
      `ok` means the value asked for was confirmed, or an acknowledgement was believed and nothing was read. */
  lemma ReportIsHonest(registers: Registers, device: Device, slaveId: byte, register: int, value: word,
                       readBack: bool, writeFate: Fate, readFate: Fate)
    ensures var r := Expected(registers, device, slaveId, register, value, readBack, writeFate, readFate);
            var actual := Contents(RegistersAfter(registers, device, register, value, writeFate), register);
            var accepted := Kept(device, registers, register, value).Some?;
            && (r.confirmed.Some? && r.confirmed.value != actual <==>
                  && readBack && !writeFate.LinkFailed?
                  && readFate.Late? && Believable(readFate.got, slaveId, READ_HOLDING)
                  && Word16(readFate.got[3], readFate.got[4]) != actual)
            && (r.ok <==>
                  || r.confirmed == Some(value)
                  || (Acked(slaveId, accepted, writeFate) && (!readBack || TimedOut(readFate))))
  {
    hide Kept, RegistersAfter, Contents, Accepts;
  }

  /** What the caller is told: confirmed or differing only with a value, acknowledged only without one. */
  lemma DetailSays(registers: Registers, device: Device, slaveId: byte, register: int, value: word,
                   readBack: bool, writeFate: Fate, readFate: Fate)
    ensures var r := Expected(registers, device, slaveId, register, value, readBack, writeFate, readFate);
            && (r.detail.Confirmed? <==> r.confirmed == Some(value))
            && (r.detail.Differs? <==> r.confirmed.Some? && r.confirmed != Some(value))
            && (r.detail.AckOnly? <==> r.ok && r.confirmed.None? && readBack)
            && (r.detail.AckTrusted? <==> r.ok && r.confirmed.None? && !readBack)
            && (r.detail.SendFailed? <==> writeFate.LinkFailed?)
            && (r.detail.NoAckNoReadBack? <==> !r.ok && !readBack && !writeFate.LinkFailed?)
            && (r.detail.NoAckTimedOut? <==> !r.ok && readBack && TimedOut(readFate) && !writeFate.LinkFailed?)
  {
    hide Kept, RegistersAfter, Contents, Accepts;
  }

  /** Which late frames those are: a late reading of one register or more confirms its first word, ... */
  lemma LateReadingIsBelieved(slaveId: byte, data: seq<byte>, answer: Option<word>)
    requires 2 <= |data| < 256
    ensures Reading(slaveId, answer, Late(ReadReply(slaveId, data))) == Some(Word16(data[0], data[1]))
  {
    hide Trailer, Accepts, Word16;
    OwnTrailerAccepted([slaveId, READ_HOLDING, |data|] + data);
  }

  /** ... one of no register confirms its own check sum, ... */
  lemma EmptyReadingIsBelieved(slaveId: byte, answer: Option<word>)
    ensures var t := Trailer([slaveId, READ_HOLDING, 0]);
            Reading(slaveId, answer, Late(ReadReply(slaveId, []))) == Some(Word16(t[0], t[1]))
  {
    hide Trailer, Accepts, Word16;
    OwnTrailerAccepted([slaveId, READ_HOLDING, 0]);
    assert [slaveId, READ_HOLDING, 0] + [] == [slaveId, READ_HOLDING, 0];
  }

  /** ... and a late acknowledgement is no reading, whatever it acknowledges; but as an acknowledgement it is
      believed, for any register and value. */
  lemma LateAckIsNoReading(slaveId: byte, register: int, value: int, accepted: bool, answer: Option<word>)
    ensures var late := Late(WriteRequest(slaveId, register, value));
            Reading(slaveId, answer, late) == None && Acked(slaveId, accepted, late)
  {
    hide Request, Accepts;
    RequestFields(slaveId, WRITE_SINGLE, register, value);
  }

  /** With read-back on, losing, damaging or mistaking only the acknowledgement changes nothing in the report. */
  lemma LostAckIsHarmless(registers: Registers, device: Device, slaveId: byte, register: int, value: word,
                          writeFate: Fate)
    requires Reaches(writeFate)
    ensures Expected(registers, device, slaveId, register, value, true, writeFate, Delivered)
         == Expected(registers, device, slaveId, register, value, true, Delivered, Delivered)
  {
    hide Kept, Contents, Accepts;
  }

  /** So a write the device kept is reported with the value kept, and as done exactly when that is the value asked
      for; a refused write is reported as done exactly when the register held that value already. */
  lemma WriteIsReported(registers: Registers, device: Device, slaveId: byte, register: int, value: word,
                        writeFate: Fate)
    requires Reaches(writeFate) && device.readable(register % 0x1_0000)
    ensures var kept := Kept(device, registers, register, value);
            var now := if kept.Some? then kept.value else Contents(registers, register);
            var r := Expected(registers, device, slaveId, register, value, true, writeFate, Delivered);
            r.confirmed == Some(now) && (r.ok <==> now == value)
  {
    hide Kept, Accepts;
  }
}

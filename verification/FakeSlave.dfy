/** The loopback Modbus device of `scripts/verify_fc06_serial.py`: a parser over a growing byte
    buffer that drops a byte at a time until a known function code lines up. */
module FakeSlave {
  import opened Crc
  import opened Modbus

  /** `stopped`: the reading thread has returned (end of input) or died on an unencodable reply. */
  datatype State = State(registers: map<nat, word>, buf: seq<byte>, replies: seq<seq<byte>>, stopped: bool)

  function Lookup(registers: map<nat, word>, reg: nat): word {
    if reg in registers then registers[reg] else 0
  }

  /** The contents of `count` registers from `reg` on, high bytes first. */
  function Payload(registers: map<nat, word>, reg: nat, count: nat): (p: seq<byte>)
    ensures |p| == 2 * count
    decreases count
  {
    if count == 0 then []
    else Payload(registers, reg, count - 1)
         + [HighOf(Lookup(registers, reg + count - 1)), LowOf(Lookup(registers, reg + count - 1))]
  }

  predicate KnownFunction(fc: byte) {
    fc == WRITE_SINGLE || fc == READ_HOLDING
  }

  /** What serving one complete frame does; a read whose byte count does not fit in a byte kills the thread. */
  function Serve(s: State, frame: seq<byte>): State
    requires |frame| == 8 && KnownFunction(frame[1])
  {
    if !Accepts(frame) then s
    else
      var reg, arg := Word16(frame[2], frame[3]), Word16(frame[4], frame[5]);
      if frame[1] == WRITE_SINGLE then
        s.(registers := s.registers[reg := arg], replies := s.replies + [frame])
      else if 2 * arg < 256 then
        s.(replies := s.replies + [ReadReply(frame[0], Payload(s.registers, reg, arg))])
      else
        s.(buf := [], stopped := true)
  }

  function Step(s: State): (s': State)
    requires |s.buf| >= 8
    ensures |s'.buf| < |s.buf|
  {
    if KnownFunction(s.buf[1]) then Serve(s.(buf := s.buf[8..]), s.buf[..8]) else s.(buf := s.buf[1..])
  }

  /** Consume everything that can be consumed. */
  function Drain(s: State): (s': State)
    decreases |s.buf|
  {
    if s.stopped || |s.buf| < 8 then s else Drain(Step(s))
  }

  /** One read from the port; an empty read is the end of input. */
  function Feed(s: State, chunk: seq<byte>): State {
    if s.stopped then s
    else if chunk == [] then s.(buf := [], stopped := true)
    else Drain(s.(buf := s.buf + chunk))
  }

  class Device {
    var registers: map<nat, word>
    var buf: seq<byte>
    var replies: seq<seq<byte>>
    var stopped: bool

    function Now(): State
      reads this
    {
      State(registers, buf, replies, stopped)
    }

    constructor ()
      ensures Now() == State(map[], [], [], false)
    {
      registers, buf, replies, stopped := map[], [], [], false;
    }

    method Receive(chunk: seq<byte>)
      modifies this
      ensures Now() == Feed(old(Now()), chunk)
    {
      if stopped {
        return;
      }
      if chunk == [] {
        buf, stopped := [], true;
        return;
      }
      buf := buf + chunk;
      ghost var start := Now();
      while !stopped && |buf| >= 8
        invariant Drain(Now()) == Drain(start)
        decreases |buf|
      {
        ghost var before := Now();
        if !KnownFunction(buf[1]) {
          buf := buf[1..];
        } else {
          var frame := buf[..8];
          buf := buf[8..];
          Answer(frame);
        }
        assert Now() == Step(before);
      }
    }

    method Answer(frame: seq<byte>)
      requires |frame| == 8 && KnownFunction(frame[1])
      modifies this
      ensures Now() == Serve(old(Now()), frame)
    {
      var sum := Crc16(frame[..|frame| - 2]);
      if sum != frame[|frame| - 2..] {
        return;
      }
      var reg, arg := Word16(frame[2], frame[3]), Word16(frame[4], frame[5]);
      if frame[1] == WRITE_SINGLE {
        registers := registers[reg := arg];
        replies := replies + [frame];
      } else {
        var payload := ReadOut(reg, arg);
        if |payload| < 256 {
          var head := [frame[0], READ_HOLDING, |payload|] + payload;
          sum := Crc16(head);
          replies := replies + [head + sum];
        } else {
          buf, stopped := [], true;
        }
      }
    }

    method ReadOut(reg: nat, count: nat) returns (payload: seq<byte>)
      ensures payload == Payload(registers, reg, count)
    {
      payload := [];
      for i := 0 to count
        invariant payload == Payload(registers, reg, i)
      {
        var v := Lookup(registers, reg + i);
        payload := payload + [HighOf(v)];
        payload := payload + [LowOf(v)];
        assert Payload(registers, reg, i + 1) == Payload(registers, reg, i) + [HighOf(v), LowOf(v)];
      }
    }
  }

  // ---------- Chunking does not matter ----------

  function FeedAll(s: State, chunks: seq<seq<byte>>): State
    decreases |chunks|
  {
    if chunks == [] then s else FeedAll(Feed(s, chunks[0]), chunks[1..])
  }

  function Joined(chunks: seq<seq<byte>>): seq<byte> {
    if chunks == [] then [] else chunks[0] + Joined(chunks[1..])
  }

  function Plus(s: State, more: seq<byte>): State {
    if s.stopped then s else s.(buf := s.buf + more)
  }

  lemma StepIgnoresTheRest(s: State, more: seq<byte>)
    requires |s.buf| >= 8 && !s.stopped
    ensures Step(Plus(s, more)) == Plus(Step(s), more)
  {
    hide Accepts, Payload, ReadReply;
    var all := s.buf + more;
    assert all[..8] == s.buf[..8] && all[8..] == s.buf[8..] + more && all[1..] == s.buf[1..] + more;
  }

  /** Draining early and then reading more is the same as reading everything first. */
  lemma {:induction false} DrainThenMore(s: State, more: seq<byte>)
    ensures Drain(Plus(Drain(s), more)) == Drain(Plus(s, more))
    decreases |s.buf|
  {
    hide Step;
    if !s.stopped && |s.buf| >= 8 {
      StepIgnoresTheRest(s, more);
      DrainThenMore(Step(s), more);
    }
  }

  lemma FeedIsDrain(s: State, chunk: seq<byte>)
    requires chunk != []
    ensures Feed(s, chunk) == Drain(Plus(s, chunk))
  {
    hide Step;
  }

  lemma PlusPlus(s: State, a: seq<byte>, b: seq<byte>)
    ensures Plus(Plus(s, a), b) == Plus(s, a + b)
  {
    assert s.buf + a + b == s.buf + (a + b);
  }

  lemma FirstChunk(s: State, chunks: seq<seq<byte>>)
    requires chunks != []
    ensures FeedAll(s, chunks) == FeedAll(Feed(s, chunks[0]), chunks[1..])
    ensures Joined(chunks) == chunks[0] + Joined(chunks[1..])
    ensures |chunks| == 1 ==> FeedAll(s, chunks) == Feed(s, chunks[0]) && Joined(chunks) == chunks[0]
  {
    hide Feed;
  }

  lemma {:induction false} ChunkingDoesNotMatter(s: State, chunks: seq<seq<byte>>)
    requires chunks != [] && forall c <- chunks :: c != []
    ensures FeedAll(s, chunks) == Feed(s, Joined(chunks))
    decreases |chunks|
  {
    hide Feed, FeedAll, Joined, Drain, Plus;
    var first, rest := chunks[0], chunks[1..];
    assert first in chunks;
    FirstChunk(s, chunks);
    if rest != [] {
      assert rest[0] in chunks && forall c <- rest :: c in chunks;
      FirstChunk(s, rest);
      ChunkingDoesNotMatter(Feed(s, first), rest);
      var more := Joined(rest);
      FeedIsDrain(s, first);
      FeedIsDrain(Feed(s, first), more);
      DrainThenMore(Plus(s, first), more);
      PlusPlus(s, first, more);
      FeedIsDrain(s, first + more);
    }
  }

  // ---------- What the parser is for: requests in, answers out, in order ----------

  /** A request the device can answer. */
  predicate Answerable(frame: seq<byte>) {
    && |frame| == 8 && KnownFunction(frame[1]) && Accepts(frame)
    && (frame[1] == READ_HOLDING ==> 2 * Word16(frame[4], frame[5]) < 256)
  }

  function AnswerAll(s: State, requests: seq<seq<byte>>): State
    requires forall r <- requests :: Answerable(r)
    decreases |requests|
  {
    if requests == [] then s
    else
      assert Answerable(requests[0]);
      AnswerAll(Serve(s, requests[0]), requests[1..])
  }

  /** A stream of good requests, however it is cut into reads, is answered request by request. */
  lemma {:induction false} RequestsAreAnsweredInOrder(s: State, requests: seq<seq<byte>>, chunks: seq<seq<byte>>)
    requires s.buf == [] && !s.stopped
    requires forall r <- requests :: Answerable(r)
    requires forall c <- chunks :: c != []
    requires chunks != [] && Joined(chunks) == Joined(requests)
    ensures FeedAll(s, chunks) == AnswerAll(s, requests)
  {
    ChunkingDoesNotMatter(s, chunks);
    assert chunks[0] in chunks;
    DrainAnswers(s, requests);
    assert s.buf + Joined(requests) == Joined(requests);
  }

  lemma {:induction false} DrainAnswers(s: State, requests: seq<seq<byte>>)
    requires s.buf == [] && !s.stopped
    requires forall r <- requests :: Answerable(r)
    ensures Drain(s.(buf := Joined(requests))) == AnswerAll(s, requests)
    decreases |requests|
  {
    hide Accepts, Payload, ReadReply;
    if requests != [] {
      var r, rest := requests[0], requests[1..];
      assert r in requests;
      var t := s.(buf := Joined(requests));
      assert Answerable(r);
      assert t.buf[..8] == r && t.buf[8..] == Joined(rest);
      assert Step(t) == Serve(s, r).(buf := Joined(rest));
      DrainAnswers(Serve(s, r), rest);
    } else {
      assert Joined(requests) == s.buf;
    }
  }

  lemma OneFrame(s: State, frame: seq<byte>)
    requires s.buf == [] && !s.stopped && |frame| == 8 && KnownFunction(frame[1])
    ensures Serve(s, frame).buf == []
    ensures Feed(s, frame) == Serve(s, frame)
  {
    hide Accepts, ReadReply, Payload;
    assert s.buf + frame == frame && frame[..8] == frame && frame[8..] == [];
    var fed := s.(buf := frame);
    assert fed.(buf := []) == s;
    assert Step(fed) == Serve(s, frame);
    assert Drain(fed) == Drain(Step(fed));
  }


  // ---------- Junk, and reads of several registers ----------

  /** Bytes in front of a request are dropped one by one as long as none of them is followed by a known function. */
  lemma {:induction false} JunkIsSkipped(s: State, junk: seq<byte>, requests: seq<seq<byte>>)
    requires s.buf == [] && !s.stopped && requests != []
    requires forall r <- requests :: Answerable(r)
    requires var stream := junk + requests[0];
             forall i :: 1 <= i <= |junk| && i < |stream| ==> stream[i] != 3 && stream[i] != 6
    ensures Drain(s.(buf := junk + Joined(requests))) == AnswerAll(s, requests)
    decreases |junk|
  {
    hide Drain, Joined, AnswerAll, Answerable;
    if junk == [] {
      assert junk + Joined(requests) == Joined(requests);
      DrainAnswers(s, requests);
    } else {
      var stream, rest := junk + requests[0], junk[1..];
      assert requests[0] in requests;
      JoinedStarts(requests);
      var all := junk + Joined(requests);
      assert all[1] == stream[1] && all[1..] == rest + Joined(requests);
      assert forall i :: 1 <= i <= |rest| ==> (rest + requests[0])[i] == stream[i + 1];
      JunkIsSkipped(s, rest, requests);
      DropsOne(s.(buf := all));
    }
  }

  lemma JoinedStarts(requests: seq<seq<byte>>)
    requires requests != [] && Answerable(requests[0])
    ensures |requests[0]| == 8 && |Joined(requests)| >= 8 && Joined(requests)[0] == requests[0][0]
  {
  }

  lemma DropsOne(s: State)
    requires |s.buf| >= 8 && !s.stopped && !KnownFunction(s.buf[1])
    ensures Drain(s) == Drain(s.(buf := s.buf[1..]))
  {
    hide Serve;
  }

  lemma {:induction false} PayloadAt(registers: map<nat, word>, reg: nat, count: nat, i: nat)
    requires i < count
    ensures var p := Payload(registers, reg, count);
            Word16(p[2 * i], p[2 * i + 1]) == if reg + i in registers then registers[reg + i] else 0
    decreases count
  {
    hide Word16, HighOf, LowOf;
    Word16RoundTrip(Lookup(registers, reg + i));
    if i < count - 1 {
      PayloadAt(registers, reg, count - 1, i);
    }
  }

  /** A read of up to 127 registers is answered with exactly these, and changes nothing. */
  lemma ReadIsAnswered(s: State, slaveId: byte, register: int, count: nat, i: nat)
    requires s.buf == [] && !s.stopped && i < count < 128
    ensures var t := Feed(s, Request(slaveId, 3, register, count));
            && t == s.(replies := t.replies) && |t.replies| == |s.replies| + 1
            && t.replies[..|s.replies|] == s.replies
            && var r, at := t.replies[|s.replies|], register % 0x1_0000 + i;
               && |r| == 2 * count + 5 && r[0] == slaveId && r[1] == 3 && r[2] == 2 * count && Accepts(r)
               && Word16(r[3 + 2 * i], r[4 + 2 * i]) == if at in s.registers then s.registers[at] else 0
  {
    hide Feed, Payload, Accepts, Request, Trailer, Word16;
    var frame := Request(slaveId, 3, register, count);
    RequestFields(slaveId, 3, register, count);
    OneFrame(s, frame);
    PayloadAt(s.registers, register % 0x1_0000, count, i);
    var p := Payload(s.registers, register % 0x1_0000, count);
    var head := [slaveId, READ_HOLDING, |p|] + p;
    OwnTrailerAccepted(head);
    assert ReadReply(slaveId, p) == head + Trailer(head);
  }

  /** A write is kept and echoed, and changes nothing else. */
  lemma WriteIsAnswered(s: State, slaveId: byte, register: int, value: int)
    requires s.buf == [] && !s.stopped
    ensures var frame := Request(slaveId, 6, register, value);
            Feed(s, frame) == s.(registers := s.registers[register % 0x1_0000 := value % 0x1_0000],
                                 replies := s.replies + [frame])
  {
    hide Feed, Accepts, Request, Word16;
    var frame := Request(slaveId, 6, register, value);
    RequestFields(slaveId, 6, register, value);
    OneFrame(s, frame);
  }

  /** A frame whose check sum does not fit is swallowed, whatever it asks for. */
  lemma BadFrameIsIgnored(s: State, frame: seq<byte>)
    requires s.buf == [] && !s.stopped && |frame| == 8 && (frame[1] == 3 || frame[1] == 6) && !Accepts(frame)
    ensures Feed(s, frame) == s
  {
    hide Feed, Accepts;
    OneFrame(s, frame);
  }

  /** A read of 128 registers or more ends the device: its reply has no byte count. */
  lemma LongReadStops(s: State, slaveId: byte, register: int, count: int)
    requires s.buf == [] && !s.stopped && 128 <= count < 0x1_0000
    ensures Feed(s, Request(slaveId, 3, register, count)) == s.(stopped := true)
  {
    hide Feed, Accepts, Request, Word16;
    RequestFields(slaveId, 3, register, count);
    OneFrame(s, Request(slaveId, 3, register, count));
  }
}

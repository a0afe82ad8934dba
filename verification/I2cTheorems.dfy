/** What the I2C loader does over whole frames and whole sessions. */
module I2cTheorems {
  import opened Options
  import opened Words
  import opened Memory
  import opened Effects
  import opened Gf2
  import opened CrcCcitt
  import opened CrcTheorems
  import opened I2c

  // ----- Frames the chip builds -----

  function HighOctet(r: Register): uint8 {
    PowersOfTwo();
    ValueBound(r[8..]);
    Value(r[8..])
  }

  function LowOctet(r: Register): uint8 {
    PowersOfTwo();
    ValueBound(r[..8]);
    Value(r[..8])
  }

  lemma TrailerOfRegister(r: Register)
    ensures Trailer(HighOctet(r), LowOctet(r)) == r
  {
    BitsOfValue(r[8..]);
    BitsOfValue(r[..8]);
  }

  /** Everything before the trailer. The address field keeps what the buffer held,
      and so does the payload when there is no data. */
  function FormedBody(buf: seq<uint8>, cmdType: uint8, data: Option<seq<uint8>>, dataLen: uint8): seq<uint8>
    requires HEADER_SIZE + dataLen <= |buf| && (data.Some? ==> dataLen as int <= |data.value|)
  {
    [0x70, 0x5A] + buf[A2_RAM_ADDRESS..CMD_TYPE] + [cmdType, dataLen]
    + (if data.Some? then data.value[..dataLen] else buf[HEADER_SIZE..HEADER_SIZE + dataLen as int])
  }

  /** The two bytes that end a frame. */
  function TrailerBytes(body: seq<uint8>, crcOnOff: uint8): (t: seq<uint8>)
    ensures |t| == 2
  {
    if crcOnOff == 1 then [HighOctet(Crc(body)), LowOctet(Crc(body))] else [0, 0]
  }

  function Formed(buf: seq<uint8>, cmdType: uint8, data: Option<seq<uint8>>, dataLen: uint8, crcOnOff: uint8)
    : seq<uint8>
    requires HEADER_SIZE + dataLen <= |buf| && (data.Some? ==> dataLen as int <= |data.value|)
  {
    var body := FormedBody(buf, cmdType, data, dataLen);
    body + TrailerBytes(body, crcOnOff)
  }

  /** The header and the payload loop. */
  method FillFrame(aBuf: array<uint8>, aCmdType: uint8, aData: Option<seq<uint8>>, aDataLen: uint8)
    requires HEADER_SIZE + aDataLen as int <= aBuf.Length
    requires aData.Some? ==> aDataLen as int <= |aData.value|
    modifies aBuf
    ensures aBuf[..HEADER_SIZE + aDataLen as int] == FormedBody(old(aBuf[..]), aCmdType, aData, aDataLen)
    ensures aBuf[HEADER_SIZE + aDataLen as int..] == old(aBuf[HEADER_SIZE + aDataLen as int..])
  {
    ghost var was := aBuf[..];
    ghost var body := FormedBody(was, aCmdType, aData, aDataLen);
    aBuf[SOF], aBuf[SOF + 1], aBuf[CMD_TYPE], aBuf[DATA_LEN] := 0x70, 0x5A, aCmdType, aDataLen;
    BodyStarts(was, aCmdType, aData, aDataLen, aBuf[..]);
    var i: uint8 := 0;
    while i < aDataLen
      invariant i <= aDataLen
      invariant forall k :: 0 <= k < HEADER_SIZE + i as int ==> aBuf[k] == body[k]
      invariant forall k :: HEADER_SIZE + i as int <= k < aBuf.Length ==> aBuf[k] == was[k]
    {
      if aData.Some? {
        aBuf[HEADER_SIZE + i] := aData.value[i];
      }
      i := i + 1;
    }
  }

  lemma BodyStarts(was: seq<uint8>, cmdType: uint8, data: Option<seq<uint8>>, dataLen: uint8, headed: seq<uint8>)
    requires HEADER_SIZE + dataLen <= |was| && (data.Some? ==> dataLen as int <= |data.value|)
    requires headed == was[SOF := 0x70][SOF + 1 := 0x5A][CMD_TYPE := cmdType][DATA_LEN := dataLen]
    ensures var body := FormedBody(was, cmdType, data, dataLen);
      && (forall k :: 0 <= k < HEADER_SIZE ==> body[k] == headed[k])
      && (forall k :: HEADER_SIZE <= k < HEADER_SIZE + dataLen as int ==>
            body[k] == if data.Some? then data.value[k - HEADER_SIZE] else was[k])
  {
  }

  /** Two bytes at i, and everything around them as it was. */
  method PutTrailer(aBuf: array<uint8>, i: uint8, hi: uint8, lo: uint8)
    requires i + 2 <= aBuf.Length
    modifies aBuf
    ensures aBuf[..i + 2] == old(aBuf[..i]) + [hi, lo]
    ensures aBuf[i + 2..] == old(aBuf[i + 2..])
  {
    aBuf[i] := hi;
    aBuf[i + 1] := lo;
  }

  method FormI2CProtocolFrame(calculator: Calculator, aBuf: array<uint8>, aCmdType: uint8,
                              aData: Option<seq<uint8>>, aDataLen: uint8, aCRCOnOff: uint8)
    returns (n: uint8)
    requires IsTable(calculator.crcTable[..])
    requires aDataLen <= MAX_PAYLOAD_SIZE ==> HEADER_SIZE + aDataLen as int + 2 <= aBuf.Length
    requires aData.Some? ==> aDataLen as int <= |aData.value|
    modifies aBuf
    ensures aDataLen > 240 ==> n == 0 && aBuf[..] == old(aBuf[..])
    ensures aDataLen <= 240 ==>
      && n as int == HEADER_SIZE + aDataLen as int + 2
      && aBuf[..n] == Formed(old(aBuf[..]), aCmdType, aData, aDataLen, aCRCOnOff)
      && aBuf[n..] == old(aBuf[n..])
  {
    hide FormedBody, Crc, HighOctet, LowOctet;
    if aDataLen <= MAX_PAYLOAD_SIZE {
      ghost var was := aBuf[..];
      ghost var body := FormedBody(aBuf[..], aCmdType, aData, aDataLen);
      FillFrame(aBuf, aCmdType, aData, aDataLen);
      var i: uint8 := HEADER_SIZE + aDataLen;
      assert aBuf[..][..i] == aBuf[..i] == body;
      assert aBuf[i + 2..] == aBuf[i..][2..] == was[i..][2..] == was[i + 2..];
      if aCRCOnOff == 1 {
        var ui16Crc := calculator.CrcFast(aBuf[..], i as int);
        PutTrailer(aBuf, i, HighOctet(ui16Crc), LowOctet(ui16Crc));
      } else {
        PutTrailer(aBuf, i, 0, 0);
      }
      n := i + 2;
    } else {
      n := 0;
    }
  }

  /** Every frame the chip builds with the CRC on passes the receiver's test. */
  lemma FormedFramePasses(buf: seq<uint8>, cmdType: uint8, data: Option<seq<uint8>>, dataLen: uint8)
    requires HEADER_SIZE + dataLen <= |buf| && (data.Some? ==> dataLen as int <= |data.value|)
    requires dataLen <= MAX_PAYLOAD_SIZE
    ensures var f := Formed(buf, cmdType, data, dataLen, 1);
      && Complete(f) && f[DATA_LEN] == dataLen && f[CMD_TYPE] == cmdType && Sof(f) == A2_TO_HOST_FRAME_HEADER
      && (data.Some? ==> f[HEADER_SIZE..HEADER_SIZE + dataLen as int] == data.value[..dataLen])
      && TrailerMatches(f) && Crc(f) == Zeros(16)
  {
    hide Crc, Trailer;
    var body := FormedBody(buf, cmdType, data, dataLen);
    var f := Formed(buf, cmdType, data, dataLen, 1);
    TrailerOfRegister(Crc(body));
    assert f[..|f| - 2] == body;
    TrailerMatchesIffZero(f);
  }

  // ----- What a received frame does -----

  /** What the loader does about a complete frame, from the frame alone. */
  function FrameEffects(useCrc: bool, f: seq<uint8>): seq<Event>
    requires Complete(f)
  {
    if useCrc && Crc(f) != Zeros(16) then [Told(CORRUPTED_FRAME_RCVD)]
    else if Sof(f) != HOST_TO_A2_FRAME_HEADER then []
    else if f[CMD_TYPE] == JUMP_TO_ADDRESS_CMD then [Jumped(RamAddress(f))]
    else
      (if f[CMD_TYPE] == LOAD_MEMORY_CMD then [Wrote(RamAddress(f), f[HEADER_SIZE..|f| - 2])] else [])
      + (if useCrc then [Told(GOOD_FRAME_RCVD)] else [])
  }

  predicate Ends(events: seq<Event>) {
    events != [] && events[|events| - 1].Jumped?
  }

  /** What one call did, as an extension of the log. */
  ghost predicate Did(m: Machine, m': Machine, events: seq<Event>) {
    && m'.log == m.log + events && m'.ram == Replay(m.ram, events)
    && m'.flow == if Ends(events) then Gone else Running
  }

  /** With at least two bytes received, the comparison of the trailer with the CRC of
      the rest is the test whether the CRC of the whole is zero. */
  lemma PassesIffZero(useCrc: bool, p: Poll, buf: seq<uint8>, len: nat)
    requires p.Possible() && |buf| == RX_BUF_LEN && 2 <= len <= RX_BUF_LEN
    ensures Passes(useCrc, p, buf, len) <==> (useCrc ==> Crc(buf[..len]) == Zeros(16))
  {
    hide Crc, Trailer;
    var f := buf[..len];
    assert f[..|f| - 2] == Onwards(p, buf)[..CrcLength(len)];
    assert Around(p, buf)[len] == f[len - 2] && Around(p, buf)[len + 1] == f[len - 1];
    TrailerMatchesIffZero(f);
  }

  lemma NothingDid(m: Machine)
    requires m.flow == Running
    ensures Did(m, m, [])
  {
    assert m.log + [] == m.log;
  }

  lemma EmitDid(m: Machine, e: Event)
    requires m.flow == Running
    ensures Did(m, if e.Jumped? then m.Emit(e).(flow := Gone) else m.Emit(e), [e])
  {
    ReplayOne(m.ram, e);
  }

  lemma DidTwice(m: Machine, m1: Machine, m2: Machine, a: seq<Event>, b: seq<Event>)
    requires Did(m, m1, a) && Did(m1, m2, b) && !Ends(a)
    ensures Did(m, m2, a + b)
  {
    ReplayConcat(m.ram, a, b);
    if b == [] {
      assert a + b == a;
    }
  }

  /** A complete frame has the effects it announces, whatever the buffer held before
      and whatever lies around it. */
  lemma FrameRead(m: Machine, p: Poll)
    requires m.Valid() && p.Possible() && m.flow == Running
    requires p.waiting && p.msg == NEW_FRAME_READY_BYTE && Complete(p.fifo)
    ensures Did(m, Step(m, p), FrameEffects(m.useCrc, p.fifo)) && Step(m, p).useCrc == m.useCrc
  {
    hide Crc, Trailer, Did, RamAddress, Replay;
    var f := p.fifo;
    var m1 := m.(stopMsg := true, stopUart := true, rxBuf := f + m.rxBuf[|f|..]);
    var buf := m1.rxBuf;
    assert buf[..|f|] == f;
    PassesIffZero(m.useCrc, p, buf, |f|);
    assert Sof(buf) == Sof(f);
    assert RamAddress(buf) == RamAddress(f) by {
      SameAddress(buf, f);
    }
    assert Payload(p, buf) == f[HEADER_SIZE..|f| - 2];
    DidFrom(m, m1);
    NothingDid(m1);
    if !Passes(m.useCrc, p, buf, |f|) {
      EmitDid(m1, Told(CORRUPTED_FRAME_RCVD));
    } else if Sof(f) == HOST_TO_A2_FRAME_HEADER {
      if f[CMD_TYPE] == JUMP_TO_ADDRESS_CMD {
        EmitDid(m1, Jumped(RamAddress(f)));
      } else {
        var load := f[CMD_TYPE] == LOAD_MEMORY_CMD;
        var e := Wrote(RamAddress(f), f[HEADER_SIZE..|f| - 2]);
        var m2 := if load then m1.Emit(e) else m1;
        EmitDid(m1, e);
        assert Did(m1, m2, if load then [e] else []);
        assert m2.flow == Running;
        NothingDid(m2);
        EmitDid(m2, Told(GOOD_FRAME_RCVD));
        var m3 := if m.useCrc then m2.Emit(Told(GOOD_FRAME_RCVD)) else m2;
        DidTwice(m1, m2, m3, if load then [e] else [], if m.useCrc then [Told(GOOD_FRAME_RCVD)] else []);
      }
    }
  }

  lemma SameAddress(buf: seq<uint8>, f: seq<uint8>)
    requires |f| >= HEADER_SIZE && |buf| >= |f| && buf[..|f|] == f
    ensures RamAddress(buf) == RamAddress(f)
  {
    assert forall k :: 0 <= k < HEADER_SIZE ==> buf[..|f|][k] == f[k];
  }

  lemma DidFrom(m: Machine, m1: Machine)
    requires m1.log == m.log && m1.ram == m.ram
    ensures forall m', events :: Did(m1, m', events) ==> Did(m, m', events)
  {
  }

  /** A frame that was sound when sent and arrives, in CRC mode, with a burst of at
      most sixteen bits or an odd number of bits wrong, is reported and not obeyed. */
  lemma CorruptedFrameRefused(m: Machine, p: Poll, sent: seq<uint8>, at: nat)
    requires m.Valid() && p.Possible() && m.flow == Running && m.useCrc
    requires p.waiting && p.msg == NEW_FRAME_READY_BYTE
    requires |sent| == |p.fifo| >= 2 && Crc(sent) == Zeros(16) && sent != p.fifo
    requires (forall k :: Coef(Difference(sent, p.fifo), k) ==> at <= k < at + 16)
          || Odd(Difference(sent, p.fifo))
    ensures var m' := Step(m, p);
      m'.ram == m.ram && m'.log == m.log + [Told(CORRUPTED_FRAME_RCVD)] && m'.flow == Running
  {
    hide Crc, Trailer, Difference, Odd;
    TrailerMatchesIffZero(sent);
    CorruptionDetected(sent, p.fifo, at);
    TrailerMatchesIffZero(p.fifo);
    var buf := p.fifo + m.rxBuf[|p.fifo|..];
    assert buf[..|p.fifo|] == p.fifo;
    PassesIffZero(m.useCrc, p, buf, |p.fifo|);
  }

  // ----- Sessions -----

  predicate AllPossible(polls: seq<Poll>) {
    forall i :: 0 <= i < |polls| ==> polls[i].Possible()
  }

  predicate AllOrderly(polls: seq<Poll>) {
    forall i :: 0 <= i < |polls| ==> Orderly(polls[i])
  }

  function Run(m: Machine, polls: seq<Poll>): (m': Machine)
    requires m.Valid() && AllPossible(polls)
    ensures m'.Valid()
    decreases |polls|
  {
    if polls == [] || m.flow != Running then m else Run(Step(m, polls[0]), polls[1..])
  }

  /** A call that finds a complete frame, a mode command, some other code, or nothing. */
  predicate Orderly(p: Poll) {
    p.Possible() && (p.waiting && p.msg == NEW_FRAME_READY_BYTE ==> Complete(p.fifo))
  }

  function ModeAfter(useCrc: bool, p: Poll): bool {
    if p.waiting && p.msg == WITHOUT_CRC_IS_READY_CHECK_CMD then false
    else if p.waiting && p.msg == WITH_CRC_IS_READY_CHECK_CMD then true
    else useCrc
  }

  function PollEffects(useCrc: bool, p: Poll): seq<Event>
    requires Orderly(p)
  {
    if !p.waiting then []
    else if p.msg == NEW_FRAME_READY_BYTE then FrameEffects(useCrc, p.fifo)
    else if p.msg == WITHOUT_CRC_IS_READY_CHECK_CMD || p.msg == WITH_CRC_IS_READY_CHECK_CMD then
      [Told(IS_READY_CHECK_RSP_YES)]
    else []
  }

  /** The effects of a session, from the messages and frames of the host alone. */
  function SessionEffects(useCrc: bool, polls: seq<Poll>): seq<Event>
    requires AllOrderly(polls)
    decreases |polls|
  {
    if polls == [] then []
    else
      var e := PollEffects(useCrc, polls[0]);
      if Ends(e) then e else e + SessionEffects(ModeAfter(useCrc, polls[0]), polls[1..])
  }

  lemma PollRead(m: Machine, p: Poll)
    requires m.Valid() && Orderly(p) && m.flow == Running
    ensures Did(m, Step(m, p), PollEffects(m.useCrc, p)) && Step(m, p).useCrc == ModeAfter(m.useCrc, p)
  {
    hide Did, FrameEffects, Parse;
    var m1 := m.(stopMsg := true, stopUart := true);
    DidFrom(m, m1);
    NothingDid(m);
    NothingDid(m1);
    if p.waiting {
      if p.msg == NEW_FRAME_READY_BYTE {
        FrameRead(m, p);
      } else if p.msg == WITHOUT_CRC_IS_READY_CHECK_CMD || p.msg == WITH_CRC_IS_READY_CHECK_CMD {
        var m2 := m1.(useCrc := p.msg == WITH_CRC_IS_READY_CHECK_CMD);
        DidFrom(m, m2);
        EmitDid(m2, Told(IS_READY_CHECK_RSP_YES));
      }
    }
  }

  /** A session of complete frames does what its frames say, each judged in the CRC
      mode last asked for, in order, up to the first jump. */
  lemma {:induction false} SessionRead(m: Machine, polls: seq<Poll>)
    requires m.Valid() && m.flow == Running && AllOrderly(polls)
    ensures Did(m, Run(m, polls), SessionEffects(m.useCrc, polls))
    decreases |polls|
  {
    hide Step, Did, FrameEffects;
    if polls == [] {
      NothingDid(m);
    } else {
      var m1 := Step(m, polls[0]);
      var e := PollEffects(m.useCrc, polls[0]);
      PollRead(m, polls[0]);
      DidFlow(m, m1, e);
      if !Ends(e) {
        SessionRead(m1, polls[1..]);
        DidTwice(m, m1, Run(m1, polls[1..]), e, SessionEffects(m1.useCrc, polls[1..]));
      }
    }
  }

  lemma DidFlow(m: Machine, m': Machine, events: seq<Event>)
    requires Did(m, m', events)
    ensures m'.flow == if Ends(events) then Gone else Running
  {
  }

  // ----- Any session at all -----

  /** The call that finds p in state m stores e, and is entitled to: a new frame with
      the host's header and the load command, whose CRC is zero if the CRC is in use and
      the frame has at least two bytes; its DataLen bytes of data go to A2RamAddress. */
  ghost predicate Entitled(m: Machine, p: Poll, e: Event)
    requires m.Valid() && p.Possible()
  {
    var buf := p.fifo + m.rxBuf[|p.fifo|..];
    && p.waiting && p.msg == NEW_FRAME_READY_BYTE
    && Passes(m.useCrc, p, buf, |p.fifo|)
    && (m.useCrc && |p.fifo| >= 2 ==> Crc(p.fifo) == Zeros(16))
    && Sof(buf) == HOST_TO_A2_FRAME_HEADER && buf[CMD_TYPE] == LOAD_MEMORY_CMD
    && e == Wrote(RamAddress(buf), Payload(p, buf))
  }

  /** The new log entries of a call; RAM changes only through stores among them. */
  ghost predicate StoresLogged(m: Machine, m': Machine, p: Poll)
    requires m.Valid() && p.Possible()
  {
    && m.log <= m'.log
    && (forall k :: |m.log| <= k < |m'.log| && m'.log[k].Wrote? ==> Entitled(m, p, m'.log[k]))
    && (m'.ram != m.ram ==> exists k :: |m.log| <= k < |m'.log| && m'.log[k].Wrote?)
  }

  lemma ParseStores(m: Machine, m1: Machine, p: Poll)
    requires m.Valid() && p.Possible() && m.flow == Running
    requires p.waiting && p.msg == NEW_FRAME_READY_BYTE
    requires m1 == m.(stopMsg := true, stopUart := true, rxBuf := p.fifo + m.rxBuf[|p.fifo|..])
    ensures StoresLogged(m, Parse(m1, p, |p.fifo|), p)
  {
    hide Crc, Trailer, RamAddress, Blit, Around, Payload;
    var m' := Parse(m1, p, |p.fifo|);
    if |p.fifo| >= 2 {
      assert m1.rxBuf[..|p.fifo|] == p.fifo;
      PassesIffZero(m.useCrc, p, m1.rxBuf, |p.fifo|);
    }
    if m'.ram != m.ram {
      assert m'.log[|m.log|].Wrote?;
    }
  }

  /** One call changes RAM only by an entitled store. */
  lemma StepStores(m: Machine, p: Poll)
    requires m.Valid() && p.Possible() && m.flow == Running
    ensures StoresLogged(m, Step(m, p), p)
  {
    hide Parse, Entitled;
    if p.waiting && p.msg == NEW_FRAME_READY_BYTE {
      ParseStores(m, m.(stopMsg := true, stopUart := true, rxBuf := p.fifo + m.rxBuf[|p.fifo|..]), p);
    }
  }

  /** Over any run, every store in the log was entitled when it was made. */
  lemma {:induction false} RunStores(m: Machine, polls: seq<Poll>, k: nat) returns (i: nat)
    requires m.Valid() && AllPossible(polls)
    requires |m.log| <= k < |Run(m, polls).log| && Run(m, polls).log[k].Wrote?
    ensures i < |polls| && Run(m, polls[..i]).flow == Running
    ensures Entitled(Run(m, polls[..i]), polls[i], Run(m, polls).log[k])
    decreases |polls|
  {
    hide Step, Entitled;
    var m1 := Step(m, polls[0]);
    StepStores(m, polls[0]);
    LogGrows(m1, polls[1..]);
    if k < |m1.log| {
      i := 0;
      assert Run(m, polls[..0]) == m;
    } else {
      i := RunStores(m1, polls[1..], k);
      i := i + 1;
      assert polls[..i][0] == polls[0] && polls[..i][1..] == polls[1..][..i - 1];
    }
  }

  lemma {:induction false} LogGrows(m: Machine, polls: seq<Poll>)
    requires m.Valid() && AllPossible(polls)
    ensures m.log <= Run(m, polls).log
    decreases |polls|
  {
    hide Step;
    if polls != [] && m.flow == Running {
      StepStores(m, polls[0]);
      LogGrows(Step(m, polls[0]), polls[1..]);
    }
  }
}

/** Where the CRC of the I2C loader protects nothing. A frame of fewer than two bytes makes
    the length of the checked part wrap around, so the check covers stale bytes of the
    buffer and the memory behind it. */
module I2cShortFrames {
  import opened Words
  import opened Memory
  import opened Effects
  import opened CrcCcitt
  import opened CrcTheorems
  import opened I2c
  import opened I2cTheorems

  // ----- Every register value is some remainder -----

  /** The register that one division step turns into r. */
  function UndivideBit(r: Register): Register {
    if r[0] then Xor(r, POLYNOMIAL)[1..] + [true] else r[1..] + [false]
  }

  lemma DivideUndone(r: Register)
    ensures DivideBit(UndivideBit(r)) == r
  {
    hide Bits;
    assert POLYNOMIAL[0];
  }

  lemma {:induction false} DivisionIsOnto(r: Register, n: nat) returns (x: Register)
    ensures DivideBits(x, n) == r
    decreases n
  {
    hide DivideBit;
    if n == 0 {
      x := r;
    } else {
      var y := DivisionIsOnto(r, n - 1);
      DivideUndone(y);
      x := UndivideBit(y);
    }
  }

  /** Two more bytes can give a message any CRC. */
  lemma AnyCrc(p: seq<uint8>, target: Register) returns (hi: uint8, lo: uint8)
    ensures Crc(p + [hi, lo]) == target
  {
    hide Octet, DivideBit, DivideBits, Crc, Trailer;
    var x := DivisionIsOnto(target, 16);
    var w: Register := Xor(Crc(p), x);
    hi, lo := HighOctet(w), LowOctet(w);
    TrailerOfRegister(w);
    assert p + [hi, lo] == p + [hi] + [lo];
    CrcOfByte(p, hi);
    CrcOfByte(p + [hi], lo);
    FeedTwo(Crc(p), hi, lo);
    assert Xor(Crc(p), w) == x;
  }

  /** A frame of fewer than two bytes never has a zero CRC. */
  lemma ShortCrc(f: seq<uint8>)
    requires |f| < 2
    ensures Crc(f) != Zeros(16)
  {
    hide Bits, DivideBit, DivideBits;
    assert INITIAL_REMAINDER[0];
    if |f| == 1 {
      var r := Xor(INITIAL_REMAINDER, AtTop(Octet(f[0])));
      assert f == [] + [f[0]];
      CrcOfByte([], f[0]);
      assert r[0];
      DivisionKeepsNonZero(r, 8);
    }
  }

  // ----- What the CRC guards -----

  /** With the CRC in use, the loader is told of frame f. */
  ghost predicate Receives(m: Machine, p: Poll, f: seq<uint8>) {
    && m.Valid() && m.flow == Running && m.useCrc
    && p.Possible() && p.waiting && p.msg == NEW_FRAME_READY_BYTE && p.fifo == f
  }

  /** The call stored or jumped. */
  predicate Obeyed(m: Machine, m': Machine) {
    exists k :: |m.log| <= k < |m'.log| && (m'.log[k].Wrote? || m'.log[k].Jumped?)
  }

  /** The frame is obeyed only if its CRC is right, whatever the buffer and the memory
      around it hold. */
  ghost predicate CrcGuards(f: seq<uint8>) {
    forall m, p :: Receives(m, p, f) && Obeyed(m, Step(m, p)) ==> Crc(f) == Zeros(16)
  }

  /** An old load command in the buffer, and the command it leaves there. */
  predicate HoldsLoad(buf: seq<uint8>) {
    |buf| == RX_BUF_LEN && Sof(buf) == HOST_TO_A2_FRAME_HEADER && buf[CMD_TYPE] == LOAD_MEMORY_CMD
  }

  /** With nothing in the FIFO a load command left over in the buffer is obeyed once more,
      for some two bytes in front of the buffer and anything at all behind it. */
  lemma EmptyFrameObeyed(m: Machine, above: seq<uint8>) returns (p: Poll)
    requires m.Valid() && m.flow == Running && m.useCrc && HoldsLoad(m.rxBuf)
    requires |above| == REACH - RX_BUF_LEN
    ensures Receives(m, p, []) && p.above == above
    ensures Step(m, p).log == m.log + [Wrote(RamAddress(m.rxBuf), Payload(p, m.rxBuf)), Told(GOOD_FRAME_RCVD)]
  {
    hide Crc, Trailer, Blit, RamAddress;
    var r := Crc((m.rxBuf + above)[..CrcLength(0)]);
    p := Poll(true, NEW_FRAME_READY_BYTE, [], [HighOctet(r), LowOctet(r)], above);
    TrailerOfRegister(r);
    assert [] + m.rxBuf == m.rxBuf;
    ObeysLoad(m, p);
  }

  /** The same with one byte in the FIFO, the low byte of the frame header. */
  lemma OneByteFrameObeyed(m: Machine) returns (p: Poll)
    requires m.Valid() && m.flow == Running && m.useCrc && HoldsLoad(m.rxBuf)
    ensures Receives(m, p, [0x07])
    ensures Step(m, p).log == m.log + [Wrote(RamAddress(m.rxBuf), Payload(p, m.rxBuf)), Told(GOOD_FRAME_RCVD)]
  {
    hide Crc, Trailer, Blit, RamAddress;
    var filler := seq<uint8>(REACH - RX_BUF_LEN - 2, _ => 0);
    var hi, lo := AnyCrc(m.rxBuf + filler, Trailer(0, 0x07));
    p := Poll(true, NEW_FRAME_READY_BYTE, [0x07], [0, 0], filler + [hi, lo]);
    assert m.rxBuf[0] == 0x07;
    assert [0x07] + m.rxBuf[1..] == m.rxBuf;
    assert Onwards(p, m.rxBuf)[..CrcLength(1)] == m.rxBuf + filler + [hi, lo];
    ObeysLoad(m, p);
  }

  lemma ObeysLoad(m: Machine, p: Poll)
    requires Receives(m, p, p.fifo) && HoldsLoad(m.rxBuf) && p.fifo + m.rxBuf[|p.fifo|..] == m.rxBuf
    requires Passes(true, p, m.rxBuf, |p.fifo|)
    ensures Step(m, p).log == m.log + [Wrote(RamAddress(m.rxBuf), Payload(p, m.rxBuf)), Told(GOOD_FRAME_RCVD)]
  {
    hide Passes, Payload, Blit, RamAddress, Sof;
    var e := Wrote(RamAddress(m.rxBuf), Payload(p, m.rxBuf));
    assert m.log + [e] + [Told(GOOD_FRAME_RCVD)] == m.log + [e, Told(GOOD_FRAME_RCVD)];
  }

  /** The exact condition: the CRC guards a frame if and only if it has two bytes or more, or
      is one byte with which no header can begin. */
  lemma CrcGuardsIff(f: seq<uint8>)
    requires |f| <= RX_BUF_LEN
    ensures CrcGuards(f) <==> |f| >= 2 || (|f| == 1 && f[0] != 0x07)
  {
    hide Crc, Step, Obeyed, HoldsLoad;
    if |f| >= 2 || (|f| == 1 && f[0] != 0x07) {
      forall m, p | Receives(m, p, f) && Obeyed(m, Step(m, p))
        ensures Crc(f) == Zeros(16)
      {
        ObeyedPasses(m, p);
      }
    } else {
      var m := StaleMachine();
      ShortCrc(f);
      var p: Poll;
      if |f| == 0 {
        p := EmptyFrameObeyed(m, seq(REACH - RX_BUF_LEN, _ => 0));
      } else {
        assert f == [0x07];
        p := OneByteFrameObeyed(m);
      }
      assert Receives(m, p, f) && Obeyed(m, Step(m, p)) by {
        LogShowsObeyed(m, Step(m, p), Wrote(RamAddress(m.rxBuf), Payload(p, m.rxBuf)));
      }
    }
  }

  lemma LogShowsObeyed(m: Machine, m': Machine, e: Event)
    requires m'.log == m.log + [e, Told(GOOD_FRAME_RCVD)] && e.Wrote?
    ensures Obeyed(m, m')
  {
    assert m'.log[|m.log|] == e;
  }

  lemma ObeyedPasses(m: Machine, p: Poll)
    requires Receives(m, p, p.fifo) && Obeyed(m, Step(m, p))
    ensures |p.fifo| >= 2 ==> Crc(p.fifo) == Zeros(16)
    ensures |p.fifo| == 1 ==> p.fifo[0] == 0x07
  {
    hide Crc, Passes, Step, Obeyed;
    var buf := p.fifo + m.rxBuf[|p.fifo|..];
    ObeyedHeader(m, p);
    if |p.fifo| >= 2 {
      assert buf[..|p.fifo|] == p.fifo;
      PassesIffZero(true, p, buf, |p.fifo|);
    }
    LowByte(buf[0], buf[1]);
  }

  /** What is obeyed has passed and has the host's header. */
  lemma ObeyedHeader(m: Machine, p: Poll)
    requires Receives(m, p, p.fifo) && Obeyed(m, Step(m, p))
    ensures var buf := p.fifo + m.rxBuf[|p.fifo|..];
      Passes(true, p, buf, |p.fifo|) && Sof(buf) == HOST_TO_A2_FRAME_HEADER
  {
    hide Passes, Sof, Payload, Blit, RamAddress, Obey;
  }

  lemma LowByte(lo: uint8, hi: uint8)
    ensures Word16(lo, hi) % 0x100 == lo
  {
  }

  /** A loader with the CRC in use and a load command in its buffer. */
  lemma StaleMachine() returns (m: Machine)
    ensures m.Valid() && m.flow == Running && m.useCrc && HoldsLoad(m.rxBuf)
  {
    var buf := [0x07, 0xA5, 0, 0, 0, 0, LOAD_MEMORY_CMD, 0] + seq<uint8>(RX_BUF_LEN - HEADER_SIZE, _ => 0);
    m := Machine(buf, true, true, true, map[], [], Running);
  }

  /** Over any run in which every new frame has two bytes or more, every store made with the
      CRC in use is one of a frame whose CRC is right. */
  lemma GuardedStores(m: Machine, polls: seq<Poll>, k: nat) returns (i: nat)
    requires m.Valid() && AllPossible(polls)
    requires forall j :: 0 <= j < |polls| && polls[j].msg == NEW_FRAME_READY_BYTE ==> |polls[j].fifo| >= 2
    requires |m.log| <= k < |Run(m, polls).log| && Run(m, polls).log[k].Wrote?
    ensures i < |polls| && Run(m, polls[..i]).flow == Running
    ensures Entitled(Run(m, polls[..i]), polls[i], Run(m, polls).log[k])
    ensures Run(m, polls[..i]).useCrc ==> Crc(polls[i].fifo) == Zeros(16)
  {
    hide Run, Crc;
    i := RunStores(m, polls, k);
  }
}

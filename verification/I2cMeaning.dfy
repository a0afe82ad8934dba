/** What the frames and messages of a2_boot/I2CProtocol.c mean, byte by byte, with the codes of
    I2CProtocol.h written out. */
module I2cMeaning {
  import opened Options
  import opened Words
  import opened Memory
  import opened Effects
  import opened CrcCcitt
  import opened CrcTheorems
  import opened I2c
  import opened I2cTheorems

  /** The number that four bytes denote, least significant first. */
  function Number(a: seq<uint8>): uint32
    requires |a| == 4
  {
    var a0: nat, a1: nat, a2: nat, a3: nat := a[0], a[1], a[2], a[3];
    a0 + 0x100 * a1 + 0x1_0000 * a2 + 0x100_0000 * a3
  }

  /** A frame by its parts: two bytes of header, the address, the command, the length of the data,
      the data, and two bytes of trailer. */
  predicate Parts(f: seq<uint8>, h0: uint8, h1: uint8, address: seq<uint8>, cmd: uint8, data: seq<uint8>,
                  trailer: seq<uint8>) {
    && |address| == 4 && |data| <= 246 && |trailer| == 2
    && f == [h0, h1] + address + [cmd, |data| as uint8] + data + trailer
  }

  /** What is done about a frame. With the CRC in use a frame whose CRC is not zero is answered by
      0x30 and one from the host by 0x31; 0x24 loads the data and 0x26 jumps. */
  function Done(useCrc: bool, zero: bool, h0: uint8, h1: uint8, a: uint32, cmd: uint8, data: seq<uint8>): seq<Event> {
    if useCrc && !zero then [Told(0x30)]
    else if h0 != 0x07 || h1 != 0xA5 then []
    else if cmd == 0x26 then [Jumped(a)]
    else (if cmd == 0x24 then [Wrote(a, data)] else []) + (if useCrc then [Told(0x31)] else [])
  }

  /** The decoder's effects of a frame, from its parts. */
  lemma EffectsMean(useCrc: bool, f: seq<uint8>, h0: uint8, h1: uint8, address: seq<uint8>, cmd: uint8,
                    data: seq<uint8>, trailer: seq<uint8>)
    requires Parts(f, h0, h1, address, cmd, data, trailer)
    ensures Complete(f) && |address| == 4
    ensures FrameEffects(useCrc, f) == Done(useCrc, Crc(f) == Zeros(16), h0, h1, Number(address), cmd, data)
  {
    hide Crc;
    assert f[8..|f| - 2] == data;
    assert [f[2], f[3], f[4], f[5]] == address;
    HeaderIs(h0, h1);
  }

  lemma HeaderIs(h0: uint8, h1: uint8)
    ensures Word16(h0, h1) == HOST_TO_A2_FRAME_HEADER <==> h0 == 0x07 && h1 == 0xA5
  {
  }

  /** The loader receives a frame of the given parts. */
  lemma PartsRead(m: Machine, p: Poll, h0: uint8, h1: uint8, address: seq<uint8>, cmd: uint8, data: seq<uint8>,
                  trailer: seq<uint8>)
    requires m.Valid() && p.Possible() && m.flow == Running
    requires p.waiting && p.msg == 0x23 && Parts(p.fifo, h0, h1, address, cmd, data, trailer)
    ensures var m' := Step(m, p);
      var zero, a := Crc(p.fifo) == Zeros(16), Number(address);
      var obeyed := (m.useCrc ==> zero) && h0 == 0x07 && h1 == 0xA5;
      && m'.log == m.log + Done(m.useCrc, zero, h0, h1, a, cmd, data)
      && m'.ram == (if obeyed && cmd == 0x24 then Blit(m.ram, a, data) else m.ram)
      && m'.flow == (if obeyed && cmd == 0x26 then Gone else Running)
      && m'.useCrc == m.useCrc
  {
    hide Crc, Number, Parts, Step, FrameEffects;
    EffectsMean(m.useCrc, p.fifo, h0, h1, address, cmd, data, trailer);
    FrameRead(m, p);
    DoneOnce(m.ram, m.useCrc, Crc(p.fifo) == Zeros(16), h0, h1, address, cmd, data);
  }

  lemma DoneOnce(ram: Ram, useCrc: bool, zero: bool, h0: uint8, h1: uint8, address: seq<uint8>, cmd: uint8,
                 data: seq<uint8>)
    requires |address| == 4
    ensures var a := Number(address);
      var events := Done(useCrc, zero, h0, h1, a, cmd, data);
      var obeyed := (useCrc ==> zero) && h0 == 0x07 && h1 == 0xA5;
      && Replay(ram, events) == (if obeyed && cmd == 0x24 then Blit(ram, a, data) else ram)
      && (Ends(events) <==> obeyed && cmd == 0x26)
  {
    hide Blit, Number;
    var a := Number(address);
    var events := Done(useCrc, zero, h0, h1, a, cmd, data);
    if events == [Wrote(a, data), Told(0x31)] {
      assert events[1..] == [Told(0x31)];
      ReplayOne(Blit(ram, a, data), Told(0x31));
    } else if events != [] {
      assert |events| == 1;
      ReplayOne(ram, events[0]);
    }
  }

  /** The other messages: 0x19 turns the CRC off and 0x20 on, each answered by 0x21; any message
      at all silences the UART. */
  lemma MessageRead(m: Machine, p: Poll)
    requires m.Valid() && p.Possible() && m.flow == Running
    ensures !p.waiting ==> Step(m, p) == m
    ensures p.waiting ==> Step(m, p).stopMsg && Step(m, p).stopUart
    ensures p.waiting && p.msg != 0x23 ==>
      Step(m, p) == m.(
        stopMsg := true, stopUart := true,
        useCrc := p.msg == 0x20 || (p.msg != 0x19 && m.useCrc),
        log := m.log + if p.msg == 0x19 || p.msg == 0x20 then [Told(0x21)] else [])
  {
    hide Crc, Passes;
  }

  /** Which frames pass. Of a frame of one byte or none the trailer lies in front of the receive
      buffer, and the CRC is that of the buffer and the memory behind it. */
  lemma PassesMean(p: Poll, buf: seq<uint8>, len: nat)
    requires p.Possible() && |buf| == 256 && len <= 256
    ensures Passes(false, p, buf, len)
    ensures len >= 2 ==> (Passes(true, p, buf, len) <==> Crc(buf[..len]) == Zeros(16))
    ensures len == 1 ==> (Passes(true, p, buf, len) <==> Trailer(p.below[1], buf[0]) == Crc(buf + p.above))
    ensures len == 0 ==>
      (Passes(true, p, buf, len) <==> Trailer(p.below[0], p.below[1]) == Crc((buf + p.above)[..0xFFFE]))
  {
    hide Crc, Trailer;
    if len >= 2 {
      PassesIffZero(true, p, buf, len);
    } else if len == 1 {
      assert Onwards(p, buf)[..CrcLength(1)] == buf + p.above;
      assert Around(p, buf)[1] == p.below[1] && Around(p, buf)[2] == buf[0];
    } else {
      assert Around(p, buf)[0] == p.below[0] && Around(p, buf)[1] == p.below[1];
    }
  }

  /** Of any frame at all, complete or not, what a store takes its address and its data from. */
  lemma EntitledMeans(m: Machine, p: Poll, e: Event)
    requires m.Valid() && p.Possible()
    ensures Entitled(m, p, e) <==>
      var buf := p.fifo + m.rxBuf[|p.fifo|..];
      && p.waiting && p.msg == 0x23 && Passes(m.useCrc, p, buf, |p.fifo|)
      && buf[0] == 0x07 && buf[1] == 0xA5 && buf[6] == 0x24
      && e == Wrote(Number(buf[2..6]), (buf + p.above)[8..8 + buf[7] as int])
  {
    hide Crc, Passes, Trailer;
    var buf := p.fifo + m.rxBuf[|p.fifo|..];
    HeaderIs(buf[0], buf[1]);
    assert buf[2..6] == [buf[2], buf[3], buf[4], buf[5]];
    if m.useCrc && |p.fifo| >= 2 {
      assert buf[..|p.fifo|] == p.fifo;
      PassesIffZero(true, p, buf, |p.fifo|);
    }
  }

  /** A frame the chip forms, byte by byte: the address field keeps what the buffer held. */
  lemma FormedMeans(buf: seq<uint8>, cmdType: uint8, data: seq<uint8>, crcOnOff: uint8)
    requires 8 + |data| <= |buf| && |data| <= 240
    ensures var f := Formed(buf, cmdType, Some(data), |data| as uint8, crcOnOff);
      var body := [0x70, 0x5A, buf[2], buf[3], buf[4], buf[5], cmdType, |data| as uint8] + data;
      && |f| == 10 + |data| && f[..8 + |data|] == body
      && (crcOnOff == 1 ==> 0x100 * f[8 + |data|] as int + f[9 + |data|] as int == Value(Crc(body)))
      && (crcOnOff != 1 ==> f[8 + |data|] == 0 && f[9 + |data|] == 0)
  {
    hide Crc, HighOctet, LowOctet;
    var f := Formed(buf, cmdType, Some(data), |data| as uint8, crcOnOff);
    var body := [0x70, 0x5A, buf[2], buf[3], buf[4], buf[5], cmdType, |data| as uint8] + data;
    assert buf[2..6] == [buf[2], buf[3], buf[4], buf[5]];
    assert data[..|data|] == data;
    assert FormedBody(buf, cmdType, Some(data), |data| as uint8) == body;
    assert f[..8 + |data|] == body;
    RegisterOctets(Crc(body));
  }

  lemma RegisterOctets(r: Register)
    ensures 0x100 * HighOctet(r) as int + LowOctet(r) as int == Value(r)
  {
    PowersOfTwo();
    assert r == r[..8] + r[8..];
    ValueConcat(r[..8], r[8..]);
  }
}

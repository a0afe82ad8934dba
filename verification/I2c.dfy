/** The I2C loader of a2_boot/I2CProtocol.c: framed commands from a host, with an
    optional CRC. */
module I2c {
  import opened Words
  import opened Memory
  import opened Effects
  import opened CrcCcitt
  import opened CrcTheorems

  const RX_BUF_LEN := 256
  const MAX_PAYLOAD_SIZE := 240

  // Layout of the packed I2CProtocolFrame_t.
  const SOF := 0
  const A2_RAM_ADDRESS := 2
  const CMD_TYPE := 6
  const DATA_LEN := 7
  const HEADER_SIZE := 8

  const A2_TO_HOST_FRAME_HEADER: uint16 := 0x5A70
  const HOST_TO_A2_FRAME_HEADER: uint16 := 0xA507

  const WITHOUT_CRC_IS_READY_CHECK_CMD: uint8 := 0x19
  const WITH_CRC_IS_READY_CHECK_CMD: uint8 := 0x20
  const IS_READY_CHECK_RSP_YES: uint8 := 0x21
  const NEW_FRAME_READY_BYTE: uint8 := 0x23
  const LOAD_MEMORY_CMD: uint8 := 0x24
  const JUMP_TO_ADDRESS_CMD: uint8 := 0x26
  const CORRUPTED_FRAME_RCVD: uint8 := 0x30
  const GOOD_FRAME_RCVD: uint8 := 0x31

  /** As far as a 16-bit length reaches from the start of the receive buffer. */
  const REACH := 0xFFFF

  /** What one call finds in the hardware: whether a message waits, its code, the
      receive FIFO (256 deep), and the unspecified bytes on both sides of the
      receive buffer, which a malformed length makes the program read. */
  datatype Poll = Poll(waiting: bool, msg: uint8, fifo: seq<uint8>, below: seq<uint8>, above: seq<uint8>) {

    predicate Possible() {
      |fifo| <= RX_BUF_LEN && |below| == 2 && |above| == REACH - RX_BUF_LEN
    }
  }

  datatype Machine = Machine(rxBuf: seq<uint8>, useCrc: bool, stopMsg: bool, stopUart: bool,
                             ram: Ram, log: seq<Event>, flow: Flow) {

    predicate Valid() {
      |rxBuf| == RX_BUF_LEN
    }

    function Emit(e: Event): Machine {
      this.(log := log + [e], ram := Apply(ram, e))
    }
  }

  // ----- Frames -----

  function Word16(lo: uint8, hi: uint8): uint16 {
    lo + 0x100 * (hi as int)
  }

  function Sof(f: seq<uint8>): uint16
    requires |f| >= HEADER_SIZE
  {
    Word16(f[SOF], f[SOF + 1])
  }

  function RamAddress(f: seq<uint8>): uint32
    requires |f| >= HEADER_SIZE
  {
    Word32(f[A2_RAM_ADDRESS], f[A2_RAM_ADDRESS + 1], f[A2_RAM_ADDRESS + 2], f[A2_RAM_ADDRESS + 3])
  }

  /** A frame whose length is the one its header announces. */
  predicate Complete(f: seq<uint8>) {
    |f| >= HEADER_SIZE + 2 && |f| == HEADER_SIZE + 2 + f[DATA_LEN] as int && |f| <= RX_BUF_LEN
  }

  // ----- Parsing -----

  /** The receive buffer and what follows it in memory. */
  function Onwards(p: Poll, buf: seq<uint8>): (s: seq<uint8>)
    requires p.Possible() && |buf| == RX_BUF_LEN
    ensures |s| == REACH
  {
    buf + p.above
  }

  /** The same with the two bytes in front; index k of the buffer is k + 2 here. */
  function Around(p: Poll, buf: seq<uint8>): (s: seq<uint8>)
    requires p.Possible() && |buf| == RX_BUF_LEN
    ensures |s| == REACH + 2
  {
    p.below + Onwards(p, buf)
  }

  /** aLen - 2 as the 16-bit length parameter of the checksum: below two it wraps around. */
  function CrcLength(len: nat): uint16 {
    (len - 2) % 0x1_0000
  }

  /** Whether the frame passes: always, unless the CRC is in use and differs. */
  predicate Passes(useCrc: bool, p: Poll, buf: seq<uint8>, len: nat)
    requires p.Possible() && |buf| == RX_BUF_LEN && len <= RX_BUF_LEN
  {
    useCrc ==> Trailer(Around(p, buf)[len], Around(p, buf)[len + 1]) == Crc(Onwards(p, buf)[..CrcLength(len)])
  }

  /** The bytes a load command stores. */
  function Payload(p: Poll, buf: seq<uint8>): (bytes: seq<uint8>)
    requires p.Possible() && |buf| == RX_BUF_LEN
    ensures |bytes| == buf[DATA_LEN] as int
  {
    Onwards(p, buf)[HEADER_SIZE..HEADER_SIZE + buf[DATA_LEN] as int]
  }

  function Obey(m: Machine, p: Poll): Machine
    requires m.Valid() && p.Possible()
  {
    if m.rxBuf[CMD_TYPE] == LOAD_MEMORY_CMD then
      m.Emit(Wrote(RamAddress(m.rxBuf), Payload(p, m.rxBuf)))
    else if m.rxBuf[CMD_TYPE] == JUMP_TO_ADDRESS_CMD then
      m.Emit(Jumped(RamAddress(m.rxBuf))).(flow := Gone)
    else m
  }

  function Parse(m: Machine, p: Poll, len: nat): Machine
    requires m.Valid() && p.Possible() && len <= RX_BUF_LEN
  {
    if Passes(m.useCrc, p, m.rxBuf, len) then
      if Sof(m.rxBuf) == HOST_TO_A2_FRAME_HEADER then
        var m' := Obey(m, p);
        if m'.flow == Gone || !m.useCrc then m' else m'.Emit(Told(GOOD_FRAME_RCVD))
      else m
    else m.Emit(Told(CORRUPTED_FRAME_RCVD))
  }

  /** One call of processI2CProtocolFrames. */
  function Step(m: Machine, p: Poll): (m': Machine)
    requires m.Valid() && p.Possible() && m.flow == Running
    ensures m'.Valid()
  {
    if !p.waiting then m
    else
      var m := m.(stopMsg := true, stopUart := true);
      if p.msg == WITHOUT_CRC_IS_READY_CHECK_CMD then m.(useCrc := false).Emit(Told(IS_READY_CHECK_RSP_YES))
      else if p.msg == WITH_CRC_IS_READY_CHECK_CMD then m.(useCrc := true).Emit(Told(IS_READY_CHECK_RSP_YES))
      else if p.msg == NEW_FRAME_READY_BYTE then
        Parse(m.(rxBuf := p.fifo + m.rxBuf[|p.fifo|..]), p, |p.fifo|)
      else m
  }

  // ----- The program -----

  class Loader {
    const calculator: Calculator
    const gsI2CProtocolFrameRxBuf: array<uint8>
    var gUseCRCFlg: bool
    var gStopUartMsgFlg: bool
    var gStopUartBootLoaderFlg: bool
    var ram: Ram
    var log: seq<Event>
    var flow: Flow

    function Whole(): Machine
      reads this, gsI2CProtocolFrameRxBuf
    {
      Machine(gsI2CProtocolFrameRxBuf[..], gUseCRCFlg, gStopUartMsgFlg, gStopUartBootLoaderFlg, ram, log, flow)
    }

    ghost predicate Valid()
      reads this, gsI2CProtocolFrameRxBuf, calculator, calculator.crcTable
    {
      gsI2CProtocolFrameRxBuf.Length == RX_BUF_LEN && IsTable(calculator.crcTable[..])
    }

    /** All globals start out zero; the table has been filled. */
    constructor (calculator: Calculator, ram: Ram)
      requires IsTable(calculator.crcTable[..])
      ensures Valid() && fresh(gsI2CProtocolFrameRxBuf) && this.calculator == calculator
      ensures !gUseCRCFlg && !gStopUartMsgFlg && !gStopUartBootLoaderFlg
      ensures flow == Running && log == [] && this.ram == ram
    {
      this.calculator := calculator;
      gsI2CProtocolFrameRxBuf := new uint8[RX_BUF_LEN](_ => 0);
      gUseCRCFlg, gStopUartMsgFlg, gStopUartBootLoaderFlg := false, false, false;
      this.ram, log, flow := ram, [], Running;
    }

    method SetMsg(code: uint8)
      modifies this`log
      ensures log == old(log) + [Told(code)]
    {
      log := log + [Told(code)];
    }

    method I2CProtocolFrameCalChksum(cbuf: seq<uint8>, pktSize: uint16) returns (lCrc: Register)
      requires Valid() && pktSize as int <= |cbuf|
      ensures lCrc == Crc(cbuf[..pktSize])
    {
      lCrc := calculator.CrcFast(cbuf, pktSize);
    }

    method ParseI2CProtocolFrame(p: Poll, aLen: uint16)
      requires Valid() && p.Possible() && aLen <= RX_BUF_LEN && flow == Running
      modifies this`ram, this`log, this`flow
      ensures Whole() == Parse(old(Whole()), p, aLen)
    {
      hide Crc, Trailer, Sof, RamAddress, Blit;
      var aBuf := gsI2CProtocolFrameRxBuf[..];
      var memory, around := Onwards(p, aBuf), Around(p, aBuf);
      var ui16Crc := Zeros(16);
      var lRxdCrc := Zeros(16);
      if gUseCRCFlg {
        ui16Crc := I2CProtocolFrameCalChksum(memory, (aLen - 2) % 0x1_0000);
        lRxdCrc := Trailer(around[aLen], around[aLen + 1]);
      }
      assert Passes(gUseCRCFlg, p, aBuf, aLen) <==> lRxdCrc == ui16Crc;
      if lRxdCrc == ui16Crc {
        if Sof(aBuf) == HOST_TO_A2_FRAME_HEADER {
          if aBuf[CMD_TYPE] == LOAD_MEMORY_CMD {
            var len := aBuf[DATA_LEN] as int;
            var bytes := memory[HEADER_SIZE..HEADER_SIZE + len];
            ram := Blit(ram, RamAddress(aBuf), bytes);
            log := log + [Wrote(RamAddress(aBuf), bytes)];
          } else if aBuf[CMD_TYPE] == JUMP_TO_ADDRESS_CMD {
            log := log + [Jumped(RamAddress(aBuf))];
            flow := Gone;
            return;
          }
          if gUseCRCFlg {
            SetMsg(GOOD_FRAME_RCVD);
          }
        }
      } else {
        if gUseCRCFlg {
          SetMsg(CORRUPTED_FRAME_RCVD);
        }
      }
    }

    method ProcessI2CProtocolFrames(p: Poll)
      requires Valid() && p.Possible() && flow == Running
      modifies this, gsI2CProtocolFrameRxBuf
      ensures Valid() && Whole() == Step(old(Whole()), p)
    {
      hide Parse;
      if p.waiting {
        gStopUartMsgFlg := true;
        gStopUartBootLoaderFlg := true;
        if p.msg == WITHOUT_CRC_IS_READY_CHECK_CMD {
          gUseCRCFlg := false;
          SetMsg(IS_READY_CHECK_RSP_YES);
        } else if p.msg == WITH_CRC_IS_READY_CHECK_CMD {
          gUseCRCFlg := true;
          SetMsg(IS_READY_CHECK_RSP_YES);
        } else if p.msg == NEW_FRAME_READY_BYTE {
          var i := DrainFifo(p.fifo);
          ParseI2CProtocolFrame(p, i);
        }
      }
    }

    /** Reads the FIFO until it is empty. */
    method DrainFifo(fifo: seq<uint8>) returns (i: uint16)
      requires |fifo| <= RX_BUF_LEN == gsI2CProtocolFrameRxBuf.Length
      modifies gsI2CProtocolFrameRxBuf
      ensures i == |fifo|
      ensures gsI2CProtocolFrameRxBuf[..] == fifo + old(gsI2CProtocolFrameRxBuf[..])[|fifo|..]
    {
      i := 0;
      var left := fifo;
      while left != []
        invariant i <= |fifo| && left == fifo[i..]
        invariant forall k :: 0 <= k < i ==> gsI2CProtocolFrameRxBuf[k] == fifo[k]
        invariant forall k :: i <= k < RX_BUF_LEN ==> gsI2CProtocolFrameRxBuf[k] == old(gsI2CProtocolFrameRxBuf[k])
        decreases |left|
      {
        gsI2CProtocolFrameRxBuf[i] := left[0];
        left := left[1..];
        i := i + 1;
      }
    }
  }
}

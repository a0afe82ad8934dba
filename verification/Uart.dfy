/** The S-record loader of a2_boot/uartProtocol.c. One call of
    processUartProtocolFrames takes at most one character; `Step` is what a call
    does with a character, and the class is the program with its static state. */
module Uart {
  import opened Options
  import opened Words
  import opened Memory
  import opened Effects
  import opened Hex

  const CONV_BUF_LEN := 512
  const MEMORY_WRITE_BUF_LEN := 256

  const CHAR_S: uint8 := 83

  datatype Phase = Idle | GetRecordType | GetCount | GetDestinationAddress | GetData | GetCrc | GetTermination

  /** The static variables of uartProtocol.c. */
  datatype State = State(
    phase: Phase,
    fillIndex: uint16,
    recordType: uint8,
    address: uint32,
    addressSize: uint16,
    totalCount: uint16,
    dataCount: uint16,
    writeIndex: uint16,
    rxdCounter: uint16,
    crcVal: uint8,
    chkSum: uint16,
    convBuf: seq<uint8>,
    writeBuf: seq<uint8>)

  /** The loader, the two flags it sets, RAM, and the log of its effects. */
  datatype Machine = Machine(s: State, stopMsg: bool, stopI2c: bool, ram: Ram, log: seq<Event>, flow: Flow) {

    function Emit(e: Event): Machine {
      this.(log := log + [e], ram := Apply(ram, e))
    }
  }

  /** The bounds the state keeps for ever, whatever is received. */
  ghost predicate InBounds(s: State) {
    && |s.convBuf| == CONV_BUF_LEN && |s.writeBuf| == MEMORY_WRITE_BUF_LEN
    && s.addressSize <= 4 && s.writeIndex <= MEMORY_WRITE_BUF_LEN
    && s.fillIndex < (if s.phase == GetDestinationAddress && s.addressSize > 1 then 2 * s.addressSize else 2)
    && (s.dataCount < 0xFF || s.dataCount >= 0xFFFB)
    && (s.phase == GetData ==>
        && s.rxdCounter == 2 * s.writeIndex + s.fillIndex
        && (s.rxdCounter < 2 * s.dataCount || s.rxdCounter == 0))
  }

  function ToByte(v: uint32): uint8 {
    v % 0x100
  }

  /** Bytes of the address that a record of this type carries, if the type is known. */
  function AddressSize(recordType: uint8): Option<uint16> {
    if recordType == CHAR_0 || recordType == CHAR_0 + 1 || recordType == CHAR_9 then Some(2)
    else if recordType == CHAR_0 + 2 || recordType == CHAR_0 + 8 then Some(3)
    else if recordType == CHAR_0 + 3 || recordType == CHAR_0 + 7 then Some(4)
    else None
  }

  predicate IsData(recordType: uint8) {
    CHAR_0 <= recordType <= CHAR_0 + 3
  }

  predicate IsStore(recordType: uint8) {
    CHAR_0 + 1 <= recordType <= CHAR_0 + 3
  }

  predicate IsStart(recordType: uint8) {
    CHAR_0 + 7 <= recordType <= CHAR_9
  }

  function SumOf(bytes: seq<uint8>): nat {
    if bytes == [] then 0 else SumOf(bytes[..|bytes| - 1]) + bytes[|bytes| - 1]
  }

  /** The four bytes of the address are added one by one. */
  function AddressSum(a: uint32): nat {
    a % 0x100 + a / 0x100 % 0x100 + a / 0x100 / 0x100 % 0x100 + a / 0x100 / 0x100 / 0x100
  }

  /** (a & mask) >> n */
  function MaskShift(a: uint32, mask: uint32, n: nat): nat
    requires n <= 32
  {
    Value(Shr(And(Bits(a, 32), Bits(mask, 32)), n))
  }

  /** A mask of eight ones, shifted to its place, cuts out one byte. */
  lemma MaskCutsByte(a: uint32, mask: uint32, n: nat)
    requires n <= 24 && mask == 0xFF * Pow2(n)
    ensures MaskShift(a, mask, n) == a / Pow2(n) % 0x100
  {
    hide Pow2, Bits, Value;
    var w, m := Bits(a, 32), Zeros(n) + Ones(8) + Zeros(24 - n);
    ByteOfOnes(n);
    BitsOfValue(m);
    assert Bits(mask, 32) == m;
    var low, middle, high := w[..n], w[n..n + 8], w[n + 8..];
    assert Shr(And(w, m), n) == middle + Zeros(24);
    ValueConcat(middle, Zeros(24));
    ValueZeros(24);
    assert w == low + (middle + high);
    ValueConcat(low, middle + high);
    ValueConcat(middle, high);
    ValueBound(low);
    ValueBound(middle);
    PowersOfTwo();
    ValueOfBits(a, 32);
    DivModUnique(a, Pow2(n), Value(middle + high), Value(low));
    DivModUnique(Value(middle + high), 0x100, Value(high), Value(middle));
  }

  lemma ByteOfOnes(n: nat)
    requires n <= 24
    ensures Value(Zeros(n) + Ones(8) + Zeros(24 - n)) == 0xFF * Pow2(n)
  {
    hide Pow2, Value, Ones, Zeros;
    ValueConcat(Zeros(n) + Ones(8), Zeros(24 - n));
    ValueConcat(Zeros(n), Ones(8));
    ValueZeros(n);
    ValueZeros(24 - n);
    ValueOnes(8);
    PowersOfTwo();
  }

  /** Masking and shifting yields the four bytes of the address. */
  lemma AddressBytesAre(a: uint32)
    ensures MaskShift(a, 0xFF, 0) == a % 0x100
    ensures MaskShift(a, 0xFF00, 8) == a / 0x100 % 0x100
    ensures MaskShift(a, 0xFF_0000, 16) == a / 0x100 / 0x100 % 0x100
    ensures MaskShift(a, 0xFF00_0000, 24) == a / 0x100 / 0x100 / 0x100
  {
    hide MaskShift;
    PowersOfTwo();
    assert Pow2(0) == 1;
    MaskCutsByte(a, 0xFF, 0);
    MaskCutsByte(a, 0xFF00, 8);
    MaskCutsByte(a, 0xFF_0000, 16);
    MaskCutsByte(a, 0xFF00_0000, 24);
  }

  function Add16(x: int, y: int): uint16 {
    (x + y) % 0x1_0000
  }

  lemma AddTwo(x: int, y: int, z: int)
    ensures Add16(Add16(x, y), z) == Add16(x, y + z)
  {
  }

  lemma AddNothing(x: uint16)
    ensures Add16(x, 0) == x
  {
  }

  lemma AddFour(x: int, a: int, b: int, c: int, d: int)
    ensures Add16(Add16(Add16(Add16(x, a), b), c), d) == Add16(x, a + b + c + d)
  {
    AddTwo(x, a, b);
    AddTwo(x, a + b, c);
    AddTwo(x, a + b + c, d);
  }

  // ----- One character -----

  function StepIdle(m: Machine, c: uint8): Machine {
    if c == CHAR_S then m.(s := m.s.(phase := GetRecordType), stopMsg := true, stopI2c := true) else m
  }

  function StepRecordType(s: State, c: uint8): State {
    var s := s.(recordType := c);
    if AddressSize(c).Some? then
      s.(addressSize := AddressSize(c).value, phase := GetCount, fillIndex := 0, chkSum := 0)
    else if c == CHAR_0 + 5 then s.(phase := GetCount, fillIndex := 0, chkSum := 0)
    else s
  }

  function StepCount(s: State, c: uint8): State
    requires InBounds(s) && s.phase == GetCount
  {
    var s := s.(convBuf := s.convBuf[s.fillIndex := c], fillIndex := s.fillIndex + 1);
    if s.fillIndex >= 2 then
      var buf := s.convBuf[s.fillIndex := NUL];
      var total := Atoh(buf[..s.fillIndex + 1]) % 0x1_0000;
      s.(convBuf := buf, totalCount := total, dataCount := (total - s.addressSize - 1) % 0x1_0000,
         fillIndex := 0, chkSum := Add16(s.chkSum, total), phase := GetDestinationAddress)
    else s
  }

  function StepAddress(s: State, c: uint8): State
    requires InBounds(s) && s.phase == GetDestinationAddress
  {
    var s := s.(convBuf := s.convBuf[s.fillIndex := c], fillIndex := s.fillIndex + 1);
    if s.fillIndex >= 2 * s.addressSize then
      var buf := s.convBuf[s.fillIndex := NUL];
      var a := Atoh(buf[..s.fillIndex + 1]);
      s.(convBuf := buf, address := a, chkSum := Add16(s.chkSum, AddressSum(a)),
         fillIndex := 0, rxdCounter := 0, writeIndex := 0,
         phase := if IsData(s.recordType) then GetData else if IsStart(s.recordType) then GetCrc else s.phase)
    else s
  }

  /** The two digits in the conversion buffer become the next byte. */
  function StoreByte(s: State): State
    requires |s.convBuf| == CONV_BUF_LEN && s.writeIndex < |s.writeBuf| == MEMORY_WRITE_BUF_LEN
  {
    var buf := s.convBuf[2 := NUL];
    s.(convBuf := buf, writeBuf := s.writeBuf[s.writeIndex := ToByte(Atoh(buf[..3]))],
       writeIndex := s.writeIndex + 1, fillIndex := 0)
  }

  function CountCharacter(s: State): State
    requires s.writeIndex <= |s.writeBuf|
  {
    var s := s.(rxdCounter := Add16(s.rxdCounter, 1));
    if s.rxdCounter >= 2 * s.dataCount then
      s.(chkSum := Add16(s.chkSum, SumOf(s.writeBuf[..s.writeIndex])),
         fillIndex := 0, rxdCounter := 0, phase := GetCrc)
    else s
  }

  /** None when the byte would be stored past the end of the write buffer. */
  function StepData(s: State, c: uint8): Option<State>
    requires InBounds(s) && s.phase == GetData
  {
    var s := s.(convBuf := s.convBuf[s.fillIndex := c], fillIndex := s.fillIndex + 1);
    if s.fillIndex == 2 then
      if s.writeIndex >= MEMORY_WRITE_BUF_LEN then None else Some(CountCharacter(StoreByte(s)))
    else Some(CountCharacter(s))
  }

  /** What is done once the checksum digits are in. */
  function Conclude(m: Machine): Machine
    requires m.s.writeIndex <= |m.s.writeBuf|
  {
    if m.s.chkSum == m.s.crcVal as int then
      if m.s.address != 0 && IsStore(m.s.recordType) then
        m.Emit(Wrote(m.s.address, m.s.writeBuf[..m.s.writeIndex])).Emit(SaidOk)
      else if m.s.address != 0 && IsStart(m.s.recordType) then
        m.Emit(Jumped(m.s.address)).(flow := Gone)
      else m.Emit(SaidOk)
    else m.Emit(SaidNotOk)
  }

  /** The two digits in the conversion buffer are the received checksum; the
      computed one is complemented. */
  function TakeCrc(s: State): State
    requires |s.convBuf| == CONV_BUF_LEN
  {
    var buf := s.convBuf[2 := NUL];
    s.(convBuf := buf, fillIndex := 3, crcVal := ToByte(Atoh(buf[..3])), chkSum := 0xFF - s.chkSum % 0x100)
  }

  function Finish(m: Machine): Machine
    requires |m.s.convBuf| == CONV_BUF_LEN && m.s.writeIndex <= |m.s.writeBuf|
  {
    var m := Conclude(m.(s := TakeCrc(m.s)));
    if m.flow == Gone then m
    else m.(s := m.s.(fillIndex := 0, writeIndex := 0, phase := GetTermination))
  }

  function StepCrc(m: Machine, c: uint8): Machine
    requires InBounds(m.s) && m.s.phase == GetCrc
  {
    var s := m.s.(convBuf := m.s.convBuf[m.s.fillIndex := c], fillIndex := m.s.fillIndex + 1);
    if s.fillIndex >= 2 then Finish(m.(s := s)) else m.(s := s)
  }

  function StepTermination(s: State): State {
    s.(recordType := 0, address := 0, rxdCounter := 0, addressSize := 0, chkSum := 0, crcVal := 0,
       fillIndex := 0, writeIndex := 0, totalCount := 0, phase := Idle)
  }

  function Step(m: Machine, c: uint8): (m': Machine)
    requires InBounds(m.s) && m.flow == Running
  {
    match m.s.phase
    case Idle => StepIdle(m, c)
    case GetRecordType => m.(s := StepRecordType(m.s, c))
    case GetCount => m.(s := StepCount(m.s, c))
    case GetDestinationAddress => m.(s := StepAddress(m.s, c))
    case GetData =>
      (match StepData(m.s, c)
       case Some(s) => m.(s := s)
       case None => m.(flow := OutOfBounds))
    case GetCrc => StepCrc(m, c)
    case GetTermination => m.(s := StepTermination(m.s))
  }

  function Poll(m: Machine, input: Option<uint8>): Machine
    requires InBounds(m.s) && m.flow == Running
  {
    match input
    case None => m
    case Some(c) => Step(m, c)
  }

  lemma NextValueSmall(v: nat, d: nat)
    requires v < 16 && d < 16
    ensures NextValue(v, d) == 16 * v + d <= 0xFF
  {
  }

  /** Two characters spell a byte at most. */
  lemma AtohOfTwo(text: seq<uint8>)
    requires |text| == 3 && text[2] == NUL
    ensures Atoh(text) <= 0xFF
  {
    hide NextValue, IsHexDigit, DigitValue;
    var d, e := Digit(text[0], 0), Digit(text[1], Digit(text[0], 0));
    NextValueSmall(0, d);
    NextValueSmall(d, e);
    assert text[1..][1..] == text[2..];
    assert AtohFrom(text[2..], NextValue(d, e), e) == NextValue(d, e);
    assert AtohFrom(text[1..], NextValue(0, d), d) <= 0xFF;
  }

  lemma CountInBounds(s: State, c: uint8)
    requires InBounds(s) && s.phase == GetCount
    ensures InBounds(StepCount(s, c))
  {
    hide Atoh, Add16;
    if s.fillIndex == 1 {
      AtohOfTwo(s.convBuf[1 := c][2 := NUL][..3]);
    }
  }

  lemma AddressInBounds(s: State, c: uint8)
    requires InBounds(s) && s.phase == GetDestinationAddress
    ensures InBounds(StepAddress(s, c))
  {
    hide Atoh, AddressSum, Add16;
  }

  lemma DataInBounds(s: State, c: uint8)
    requires InBounds(s) && s.phase == GetData
    ensures var next := StepData(s, c); next.Some? ==> InBounds(next.value)
    ensures StepData(s, c).None? <==> s.fillIndex == 1 && s.writeIndex == MEMORY_WRITE_BUF_LEN
  {
    hide Atoh, SumOf, ToByte;
  }

  lemma CrcInBounds(m: Machine, c: uint8)
    requires InBounds(m.s) && m.s.phase == GetCrc && m.flow == Running
    ensures var next := StepCrc(m, c); next.flow != OutOfBounds && (next.flow == Running ==> InBounds(next.s))
  {
    hide Atoh, ToByte;
  }

  /** No input takes an index out of its buffer, except for the second digit of a byte once the
      write buffer is full; UartOverrun says when that can come about. */
  lemma StepInBounds(m: Machine, c: uint8)
    requires InBounds(m.s) && m.flow == Running
    ensures Step(m, c).flow == OutOfBounds
       <==> m.s.phase == GetData && m.s.fillIndex == 1 && m.s.writeIndex == MEMORY_WRITE_BUF_LEN
    ensures Step(m, c).flow == Running ==> InBounds(Step(m, c).s)
  {
    hide StepCount, StepAddress, StepData, StepCrc;
    match m.s.phase
    case Idle =>
    case GetRecordType =>
    case GetCount => CountInBounds(m.s, c);
    case GetDestinationAddress => AddressInBounds(m.s, c);
    case GetData => DataInBounds(m.s, c);
    case GetCrc => CrcInBounds(m, c);
    case GetTermination =>
  }

  // ----- The program -----

  class Loader {
    const gsUartProtocolConvToHexBuf: array<uint8>
    const gsMemoryWriteBuf: array<uint8>
    var gsUart0FillIndex: uint16
    var gsUart0ProtocolState: Phase
    var gsSRecordType: uint8
    var gsDestinationAddress: uint32
    var gsDestinationAddressSizeInBytes: uint16
    var gsTotalCountInBytes: uint16
    var gsDataCountInBytes: uint16
    var gsMemoryWriteBufIndex: uint16
    var gsDataRxdCounterInCharacters: uint16
    var gsCRCVal: uint8
    var gsCalculatedChkSum: uint16

    var gStopUartMsgFlg: bool
    var gStopI2CBootLoaderFlg: bool

    var ram: Ram
    var log: seq<Event>
    var flow: Flow

    function Snapshot(): State
      reads this, gsUartProtocolConvToHexBuf, gsMemoryWriteBuf
    {
      State(gsUart0ProtocolState, gsUart0FillIndex, gsSRecordType, gsDestinationAddress,
            gsDestinationAddressSizeInBytes, gsTotalCountInBytes, gsDataCountInBytes,
            gsMemoryWriteBufIndex, gsDataRxdCounterInCharacters, gsCRCVal, gsCalculatedChkSum,
            gsUartProtocolConvToHexBuf[..], gsMemoryWriteBuf[..])
    }

    function Whole(): Machine
      reads this, gsUartProtocolConvToHexBuf, gsMemoryWriteBuf
    {
      Machine(Snapshot(), gStopUartMsgFlg, gStopI2CBootLoaderFlg, ram, log, flow)
    }

    ghost predicate Valid()
      reads this, gsUartProtocolConvToHexBuf, gsMemoryWriteBuf
    {
      gsUartProtocolConvToHexBuf != gsMemoryWriteBuf && InBounds(Snapshot())
    }

    /** All static data starts out zero. */
    constructor (ram: Ram)
      ensures Valid() && flow == Running && log == [] && this.ram == ram
      ensures Snapshot().phase == Idle && !gStopUartMsgFlg && !gStopI2CBootLoaderFlg
      ensures fresh(gsUartProtocolConvToHexBuf) && fresh(gsMemoryWriteBuf)
    {
      gsUartProtocolConvToHexBuf := new uint8[CONV_BUF_LEN](_ => 0);
      gsMemoryWriteBuf := new uint8[MEMORY_WRITE_BUF_LEN](_ => 0);
      gsUart0FillIndex, gsSRecordType, gsDestinationAddress := 0, 0, 0;
      gsUart0ProtocolState := Idle;
      gsDestinationAddressSizeInBytes, gsTotalCountInBytes, gsDataCountInBytes := 0, 0, 0;
      gsMemoryWriteBufIndex, gsDataRxdCounterInCharacters, gsCRCVal, gsCalculatedChkSum := 0, 0, 0, 0;
      gStopUartMsgFlg, gStopI2CBootLoaderFlg := false, false;
      this.ram, log, flow := ram, [], Running;
    }

    method SendUartOkOrNotOkFrame(ok: bool)
      modifies this`log
      ensures log == old(log) + [if ok then SaidOk else SaidNotOk]
    {
      log := log + [if ok then SaidOk else SaidNotOk];
    }

    /** Adds a received digit to the conversion buffer. */
    method Collect(c: uint8)
      requires gsUart0FillIndex + 1 < gsUartProtocolConvToHexBuf.Length == CONV_BUF_LEN
      modifies this`gsUart0FillIndex, gsUartProtocolConvToHexBuf
      ensures gsUart0FillIndex == old(gsUart0FillIndex) + 1
      ensures gsUartProtocolConvToHexBuf[..] == old(gsUartProtocolConvToHexBuf[..])[old(gsUart0FillIndex) := c]
    {
      gsUartProtocolConvToHexBuf[gsUart0FillIndex] := c;
      gsUart0FillIndex := gsUart0FillIndex + 1;
    }

    /** Ends the collected digits with a NUL and converts them. */
    method Convert() returns (v: uint32)
      requires gsUart0FillIndex + 1 < gsUartProtocolConvToHexBuf.Length == CONV_BUF_LEN
      modifies this`gsUart0FillIndex, gsUartProtocolConvToHexBuf
      ensures gsUart0FillIndex == old(gsUart0FillIndex) + 1
      ensures gsUartProtocolConvToHexBuf[..] == old(gsUartProtocolConvToHexBuf[..])[old(gsUart0FillIndex) := NUL]
      ensures v == Atoh(gsUartProtocolConvToHexBuf[..][..gsUart0FillIndex])
    {
      gsUartProtocolConvToHexBuf[gsUart0FillIndex] := NUL;
      gsUart0FillIndex := gsUart0FillIndex + 1;
      v := AtohLoop(gsUartProtocolConvToHexBuf[..], gsUart0FillIndex);
    }

    method GetRecordTypeChar(lChar: uint8)
      requires gsUart0ProtocolState == GetRecordType
      modifies this`gsSRecordType, this`gsDestinationAddressSizeInBytes, this`gsUart0ProtocolState,
        this`gsUart0FillIndex, this`gsCalculatedChkSum
      ensures Snapshot() == StepRecordType(old(Snapshot()), lChar)
    {
      gsSRecordType := lChar;
      if gsSRecordType == CHAR_0 || gsSRecordType == CHAR_0 + 1 || gsSRecordType == CHAR_9 {
        gsDestinationAddressSizeInBytes := 2;
        gsUart0ProtocolState := GetCount;
        gsUart0FillIndex := 0;
        gsCalculatedChkSum := 0;
      } else if gsSRecordType == CHAR_0 + 2 || gsSRecordType == CHAR_0 + 8 {
        gsDestinationAddressSizeInBytes := 3;
        gsUart0ProtocolState := GetCount;
        gsUart0FillIndex := 0;
        gsCalculatedChkSum := 0;
      } else if gsSRecordType == CHAR_0 + 3 || gsSRecordType == CHAR_0 + 7 {
        gsDestinationAddressSizeInBytes := 4;
        gsUart0ProtocolState := GetCount;
        gsUart0FillIndex := 0;
        gsCalculatedChkSum := 0;
      } else if gsSRecordType == CHAR_0 + 5 {
        gsUart0ProtocolState := GetCount;
        gsUart0FillIndex := 0;
        gsCalculatedChkSum := 0;
      }
    }

    method GetCountChar(lChar: uint8)
      requires Valid() && gsUart0ProtocolState == GetCount
      modifies this`gsTotalCountInBytes, this`gsDataCountInBytes, this`gsUart0ProtocolState,
        this`gsUart0FillIndex, this`gsCalculatedChkSum, gsUartProtocolConvToHexBuf
      ensures Snapshot() == StepCount(old(Snapshot()), lChar)
    {
      hide Atoh, AddressSum, SumOf, Add16, AddressSize;
      Collect(lChar);
      if gsUart0FillIndex >= 2 {
        var v := Convert();
        gsTotalCountInBytes := v % 0x1_0000;
        gsDataCountInBytes := (gsTotalCountInBytes - gsDestinationAddressSizeInBytes - 1) % 0x1_0000;
        gsUart0FillIndex := 0;
        gsCalculatedChkSum := Add16(gsCalculatedChkSum, gsTotalCountInBytes);
        gsUart0ProtocolState := GetDestinationAddress;
      }
    }

    method GetAddressChar(lChar: uint8)
      requires Valid() && gsUart0ProtocolState == GetDestinationAddress
      modifies this`gsDestinationAddress, this`gsDataRxdCounterInCharacters, this`gsMemoryWriteBufIndex,
        this`gsUart0ProtocolState, this`gsUart0FillIndex, this`gsCalculatedChkSum, gsUartProtocolConvToHexBuf
      ensures Snapshot() == StepAddress(old(Snapshot()), lChar)
    {
      hide Atoh, AddressSum, SumOf, Add16, AddressSize;
      Collect(lChar);
      if gsUart0FillIndex >= 2 * gsDestinationAddressSizeInBytes {
        gsDestinationAddress := Convert();
        AddAddressBytes();
        gsUart0FillIndex := 0;
        gsDataRxdCounterInCharacters := 0;
        gsMemoryWriteBufIndex := 0;
        if IsData(gsSRecordType) {
          gsUart0ProtocolState := GetData;
        } else if IsStart(gsSRecordType) {
          gsUart0ProtocolState := GetCrc;
        }
      }
    }

    /** The masks and shifts pick the bytes of the address. */
    method AddAddressBytes()
      modifies this`gsCalculatedChkSum
      ensures gsCalculatedChkSum == Add16(old(gsCalculatedChkSum), AddressSum(gsDestinationAddress))
    {
      hide Add16, MaskShift;
      var a := gsDestinationAddress;
      AddressBytesAre(a);
      AddFour(gsCalculatedChkSum, a % 0x100, a / 0x100 % 0x100, a / 0x100 / 0x100 % 0x100, a / 0x100 / 0x100 / 0x100);
      gsCalculatedChkSum := Add16(gsCalculatedChkSum, MaskShift(a, 0xFF, 0));
      gsCalculatedChkSum := Add16(gsCalculatedChkSum, MaskShift(a, 0xFF00, 8));
      gsCalculatedChkSum := Add16(gsCalculatedChkSum, MaskShift(a, 0xFF_0000, 16));
      gsCalculatedChkSum := Add16(gsCalculatedChkSum, MaskShift(a, 0xFF00_0000, 24));
    }

    /** The loop over the received bytes; its 8-bit counter suffices. */
    method AddDataBytes()
      requires gsMemoryWriteBufIndex < 0x100 && gsMemoryWriteBuf.Length == MEMORY_WRITE_BUF_LEN
      modifies this`gsCalculatedChkSum
      ensures gsCalculatedChkSum
           == Add16(old(gsCalculatedChkSum), SumOf(gsMemoryWriteBuf[..][..gsMemoryWriteBufIndex]))
    {
      hide Add16;
      AddNothing(gsCalculatedChkSum);
      var i: uint8 := 0;
      while i < gsMemoryWriteBufIndex
        invariant i <= gsMemoryWriteBufIndex
        invariant gsCalculatedChkSum == Add16(old(gsCalculatedChkSum), SumOf(gsMemoryWriteBuf[..][..i]))
      {
        assert gsMemoryWriteBuf[..][..i + 1][..i] == gsMemoryWriteBuf[..][..i];
        AddTwo(old(gsCalculatedChkSum), SumOf(gsMemoryWriteBuf[..][..i]), gsMemoryWriteBuf[i]);
        gsCalculatedChkSum := Add16(gsCalculatedChkSum, gsMemoryWriteBuf[i]);
        i := i + 1;
      }
    }

    method StoreDataByte()
      requires gsUartProtocolConvToHexBuf != gsMemoryWriteBuf && gsUart0FillIndex == 2
      requires gsUartProtocolConvToHexBuf.Length == CONV_BUF_LEN
      requires gsMemoryWriteBufIndex < gsMemoryWriteBuf.Length == MEMORY_WRITE_BUF_LEN
      modifies this`gsMemoryWriteBufIndex, this`gsUart0FillIndex, gsUartProtocolConvToHexBuf, gsMemoryWriteBuf
      ensures Snapshot() == StoreByte(old(Snapshot()))
      ensures gsMemoryWriteBufIndex == old(gsMemoryWriteBufIndex) + 1
    {
      hide Atoh;
      var v := Convert();
      gsMemoryWriteBuf[gsMemoryWriteBufIndex] := ToByte(v);
      gsMemoryWriteBufIndex := gsMemoryWriteBufIndex + 1;
      gsUart0FillIndex := 0;
    }

    method CountDataCharacter()
      requires Add16(gsDataRxdCounterInCharacters, 1) >= 2 * gsDataCountInBytes ==> gsMemoryWriteBufIndex < 0x100
      requires gsMemoryWriteBufIndex <= gsMemoryWriteBuf.Length == MEMORY_WRITE_BUF_LEN
      modifies this`gsDataRxdCounterInCharacters, this`gsCalculatedChkSum, this`gsUart0FillIndex,
        this`gsUart0ProtocolState
      ensures Snapshot() == CountCharacter(old(Snapshot()))
    {
      hide SumOf, Add16;
      gsDataRxdCounterInCharacters := Add16(gsDataRxdCounterInCharacters, 1);
      if gsDataRxdCounterInCharacters >= 2 * gsDataCountInBytes {
        AddDataBytes();
        gsUart0FillIndex := 0;
        gsDataRxdCounterInCharacters := 0;
        gsUart0ProtocolState := GetCrc;
      }
    }

    method GetDataChar(lChar: uint8)
      requires Valid() && gsUart0ProtocolState == GetData
      modifies this`gsDataRxdCounterInCharacters, this`gsMemoryWriteBufIndex, this`flow,
        this`gsUart0ProtocolState, this`gsUart0FillIndex, this`gsCalculatedChkSum,
        gsUartProtocolConvToHexBuf, gsMemoryWriteBuf
      ensures var next := StepData(old(Snapshot()), lChar);
        if next.Some? then Snapshot() == next.value && flow == old(flow) else flow == OutOfBounds
    {
      hide StoreByte, CountCharacter;
      Collect(lChar);
      if gsUart0FillIndex == 2 {
        if gsMemoryWriteBufIndex >= MEMORY_WRITE_BUF_LEN {
          flow := OutOfBounds;
          return;
        }
        StoreDataByte();
      }
      CountDataCharacter();
    }

    method ConcludeRecord()
      requires gsMemoryWriteBufIndex <= gsMemoryWriteBuf.Length
      modifies this`ram, this`log, this`flow
      ensures Whole() == Conclude(old(Whole()))
    {
      if gsCalculatedChkSum == gsCRCVal as int {
        if gsDestinationAddress != 0 {
          if IsStore(gsSRecordType) {
            var bytes := gsMemoryWriteBuf[..][..gsMemoryWriteBufIndex];
            ram := Blit(ram, gsDestinationAddress, bytes);
            log := log + [Wrote(gsDestinationAddress, bytes)];
          } else if IsStart(gsSRecordType) {
            log := log + [Jumped(gsDestinationAddress)];
            flow := Gone;
            return;
          }
        }
        SendUartOkOrNotOkFrame(true);
      } else {
        SendUartOkOrNotOkFrame(false);
      }
    }

    method TakeCrcDigits()
      requires gsUartProtocolConvToHexBuf.Length == CONV_BUF_LEN && gsUart0FillIndex == 2
      modifies this`gsUart0FillIndex, this`gsCRCVal, this`gsCalculatedChkSum, gsUartProtocolConvToHexBuf
      ensures gsUartProtocolConvToHexBuf != gsMemoryWriteBuf ==> Snapshot() == TakeCrc(old(Snapshot()))
    {
      hide Atoh;
      var v := Convert();
      gsCRCVal := ToByte(v);
      gsCalculatedChkSum := gsCalculatedChkSum % 0x100;
      gsCalculatedChkSum := 0xFF - gsCalculatedChkSum;
    }

    method FinishRecord()
      requires gsUartProtocolConvToHexBuf != gsMemoryWriteBuf && gsUart0FillIndex == 2
      requires gsUartProtocolConvToHexBuf.Length == CONV_BUF_LEN && gsMemoryWriteBufIndex <= gsMemoryWriteBuf.Length
      modifies this`gsUart0FillIndex, this`gsCRCVal, this`gsCalculatedChkSum, this`gsMemoryWriteBufIndex,
        this`gsUart0ProtocolState, this`ram, this`log, this`flow, gsUartProtocolConvToHexBuf
      ensures Whole() == Finish(old(Whole()))
    {
      hide Conclude, Atoh, Blit;
      TakeCrcDigits();
      ConcludeRecord();
      if flow == Gone {
        return;
      }
      gsUart0FillIndex := 0;
      gsMemoryWriteBufIndex := 0;
      gsUart0ProtocolState := GetTermination;
    }

    method GetCrcChar(lChar: uint8)
      requires Valid() && gsUart0ProtocolState == GetCrc && flow == Running
      modifies this`gsUart0FillIndex, this`gsCRCVal, this`gsCalculatedChkSum, this`gsMemoryWriteBufIndex,
        this`gsUart0ProtocolState, this`ram, this`log, this`flow, gsUartProtocolConvToHexBuf
      ensures Whole() == StepCrc(old(Whole()), lChar)
    {
      hide Finish;
      Collect(lChar);
      if gsUart0FillIndex >= 2 {
        FinishRecord();
      }
    }

    method StartRecord()
      requires gsUart0ProtocolState == Idle
      modifies this`gsUart0ProtocolState, this`gStopUartMsgFlg, this`gStopI2CBootLoaderFlg
      ensures Whole() == StepIdle(old(Whole()), CHAR_S)
    {
      gsUart0ProtocolState := GetRecordType;
      if !gStopUartMsgFlg {
        gStopUartMsgFlg := true;
      }
      if !gStopI2CBootLoaderFlg {
        gStopI2CBootLoaderFlg := true;
      }
    }

    method EndRecord()
      modifies this`gsSRecordType, this`gsDestinationAddress, this`gsDataRxdCounterInCharacters,
        this`gsDestinationAddressSizeInBytes, this`gsCalculatedChkSum, this`gsCRCVal, this`gsUart0FillIndex,
        this`gsMemoryWriteBufIndex, this`gsTotalCountInBytes, this`gsUart0ProtocolState
      ensures Snapshot() == StepTermination(old(Snapshot()))
    {
      gsSRecordType := 0;
      gsDestinationAddress := 0;
      gsDataRxdCounterInCharacters := 0;
      gsDestinationAddressSizeInBytes := 0;
      gsCalculatedChkSum := 0;
      gsCRCVal := 0;
      gsUart0FillIndex := 0;
      gsMemoryWriteBufIndex := 0;
      gsTotalCountInBytes := 0;
      gsUart0ProtocolState := Idle;
    }

    /** One call: nothing without a character, else one step of the machine. */
    method ProcessUartProtocolFrames(input: Option<uint8>)
      requires Valid() && flow == Running
      modifies this, gsUartProtocolConvToHexBuf, gsMemoryWriteBuf
      ensures Whole() == Poll(old(Whole()), input) || flow == Poll(old(Whole()), input).flow == OutOfBounds
      ensures flow == Running ==> Valid()
    {
      hide StepRecordType, StepCount, StepAddress, StepData, StepCrc, StepTermination, InBounds;
      if input.None? {
        return;
      }
      var lChar := input.value;
      StepInBounds(Whole(), lChar);
      match gsUart0ProtocolState {
        case Idle =>
          if lChar == CHAR_S {
            StartRecord();
          }
        case GetRecordType => GetRecordTypeChar(lChar);
        case GetCount => GetCountChar(lChar);
        case GetDestinationAddress => GetAddressChar(lChar);
        case GetData => GetDataChar(lChar);
        case GetCrc => GetCrcChar(lChar);
        case GetTermination => EndRecord();
      }
    }
  }
}

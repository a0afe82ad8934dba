/** What the S-record loader makes of a data record without data. It looks for data before it
    counts any, so it takes the first digit of the checksum as data, the second digit and the
    character after the record as the checksum, and one character more as the end. */
module UartEmptyRecords {
  import opened Options
  import opened Words
  import opened Memory
  import opened Effects
  import opened Hex
  import opened Uart
  import opened UartRecords

  const CR: uint8 := 0x0D
  const LF: uint8 := 0x0A

  /** A data record with an address and a checksum and nothing between them. */
  predicate IsEmpty(r: Record) {
    r.Shaped() && IsData(r.recordType) && r.body[0] == r.AddressLength() + 1
  }

  /** The checksum that the loader computes. */
  function Expected(r: Record): int
    requires r.Shaped()
  {
    0xFF - (r.body[0] as int + SumOf(r.AddressBytes()) + SumOf(r.Data())) % 0x100
  }

  /** The checksum that two characters are read as. */
  function Taken(c1: uint8, c2: uint8): uint8 {
    ToByte(Atoh([c1, c2, NUL]))
  }

  /** What the loader does about an empty record whose checksum is read as taken. */
  function EmptyEffects(r: Record, taken: uint8): seq<Event>
    requires r.Shaped()
  {
    if taken as int != Expected(r) then [SaidNotOk]
    else if IsStore(r.recordType) && r.Address() != 0 then [Wrote(r.Address(), []), SaidOk]
    else [SaidOk]
  }

  // ----- Reading -----

  /** The first character after the address is counted as data. */
  lemma FirstDigitLost(m: Machine, m0: Machine, r: Record, c: uint8)
    requires IsEmpty(r) && AtData(m, m0, r, 0)
    ensures AtCrc(Step(m, c), m0, r)
  {
    hide Atoh, BigEndian, Spells;
    StepInBounds(m, c);
    NoDataNoSum(r.Data());
    SumBound(r.AddressBytes());
    assert m.s.writeBuf[..0] == [];
  }

  /** The two characters after that are read as the checksum, whatever they are. */
  lemma ChecksumTaken(m: Machine, m0: Machine, r: Record, c1: uint8, c2: uint8)
    requires IsEmpty(r) && AtCrc(m, m0, r)
    ensures var m1 := Step(m, c1);
      && m1.flow == Running && InBounds(m1.s)
      && var m' := Step(m1, c2);
         && m'.flow == Running && m'.s.phase == GetTermination && m'.ram == m0.ram
         && m'.log == m0.log + EmptyEffects(r, Taken(c1, c2))
  {
    hide Atoh, BigEndian, SumOf, Spells, ToByte;
    var m1 := Step(m, c1);
    StepInBounds(m, c1);
    assert m1.s.convBuf[1 := c2][2 := NUL][..3] == [c1, c2, NUL];
    assert m.s.writeBuf[..0] == [];
    EmptyConcludes(m1, m0, r, c2);
  }

  lemma EmptyConcludes(m: Machine, m0: Machine, r: Record, c: uint8)
    requires IsEmpty(r) && At(m, m0, r, GetCrc) && m.s.fillIndex == 1
    requires m.s.address == r.Address() && m.s.writeIndex == 0
    requires m.s.chkSum == r.body[0] as int + SumOf(r.AddressBytes()) + SumOf(r.Data())
    requires m.s.convBuf[1 := c][2 := NUL][..3] == [m.s.convBuf[0], c, NUL]
    ensures var m' := Step(m, c);
      && m'.flow == Running && m'.s.phase == GetTermination && m'.ram == m0.ram
      && m'.log == m0.log + EmptyEffects(r, Taken(m.s.convBuf[0], c))
  {
    hide Atoh, BigEndian, SumOf, Spells, ToByte;
    assert m.s.writeBuf[..0] == [];
    assert m0.log + [Wrote(r.Address(), [])] + [SaidOk] == m0.log + [Wrote(r.Address(), []), SaidOk];
  }

  /** From the 'S' to the end of the address. */
  lemma EmptyAddressRead(m: Machine, r: Record, count: seq<uint8>, address: seq<uint8>)
    requires m.flow == Running && InBounds(m.s) && m.s.phase == Idle && IsEmpty(r)
    requires Spells(count, r.body[..1]) && Spells(address, r.AddressBytes())
    ensures AtData(RunChars(m, [CHAR_S, r.recordType] + count + address), m, r, 0)
  {
    hide RunChars, InBounds, Spells, AtData, AtAddress;
    var m1 := RunChars(m, [CHAR_S, r.recordType]);
    HeaderRead(m, r);
    EmptyLengths(r, address);
    CountRead(m1, m, r, count, address);
    var m2 := RunChars(m1, count);
    AddressRead(m2, m, r, address, 0);
    assert address[0..] == address;
    RunConcat(m, [CHAR_S, r.recordType], count);
    RunConcat(m, [CHAR_S, r.recordType] + count, address);
  }

  lemma EmptyLengths(r: Record, address: seq<uint8>)
    requires IsEmpty(r) && Spells(address, r.AddressBytes())
    ensures 0 < |address| <= 8 && r.Data() == [] && !IsStart(r.recordType)
  {
  }

  /** For every empty record, address and checksum digits, and every character after it. */
  lemma EmptyRecordRead(m: Machine, r: Record, digits: seq<uint8>, terminator: uint8)
    requires m.flow == Running && InBounds(m.s) && m.s.phase == Idle
    requires IsEmpty(r) && Spells(digits, r.body)
    ensures |digits| >= 2
    ensures var m' := RunChars(m, [CHAR_S, r.recordType] + digits + [terminator]);
      && m'.flow == Running && m'.s.phase == GetTermination && m'.ram == m.ram
      && m'.log == m.log + EmptyEffects(r, Taken(digits[|digits| - 1], terminator))
  {
    hide RunChars, Step, InBounds, Spells, AtData, AtCrc, EmptyEffects, Taken;
    var count, address, data, crc := DigitsSplit(r, digits);
    EmptyParts(r, count, address, data, crc);
    var head := [CHAR_S, r.recordType] + count + address;
    EmptyAddressRead(m, r, count, address);
    var m1 := RunChars(m, head);
    StillRunning(m1, m, r);
    FirstDigitLost(m1, m, r, crc[0]);
    var m2 := Step(m1, crc[0]);
    ChecksumTaken(m2, m, r, crc[1], terminator);
    AtCrcRuns(m2, m, r);
    StepInBounds(m1, crc[0]);
    var m3 := Step(m2, crc[1]);
    var text := [CHAR_S, r.recordType] + digits + [terminator];
    TextOfEmpty(r, digits, count, address, data, crc, terminator);
    RunThree(m1, crc[0], crc[1], terminator);
    RunConcat(m, head, [crc[0], crc[1], terminator]);
  }

  lemma StillRunning(m: Machine, m0: Machine, r: Record)
    requires IsEmpty(r) && AtData(m, m0, r, 0)
    ensures m.flow == Running && InBounds(m.s)
  {
  }

  lemma AtCrcRuns(m: Machine, m0: Machine, r: Record)
    requires IsEmpty(r) && AtCrc(m, m0, r)
    ensures m.flow == Running && InBounds(m.s)
  {
  }

  lemma EmptyParts(r: Record, count: seq<uint8>, address: seq<uint8>, data: seq<uint8>, crc: seq<uint8>)
    requires IsEmpty(r)
    requires Spells(count, r.body[..1]) && Spells(address, r.AddressBytes()) && Spells(data, r.Data())
    requires Spells(crc, [r.body[|r.body| - 1]])
    ensures |count| == 2 && data == [] && |crc| == 2
  {
  }

  lemma TextOfEmpty(r: Record, digits: seq<uint8>, count: seq<uint8>, address: seq<uint8>, data: seq<uint8>,
                    crc: seq<uint8>, terminator: uint8)
    requires digits == count + (address + (data + crc)) && data == [] && |crc| == 2
    ensures [CHAR_S, r.recordType] + digits + [terminator]
         == [CHAR_S, r.recordType] + count + address + [crc[0], crc[1], terminator]
    ensures digits[|digits| - 1] == crc[1]
  {
    assert crc == [crc[0], crc[1]];
  }

  lemma RunThree(m: Machine, a: uint8, b: uint8, c: uint8)
    requires m.flow == Running && InBounds(m.s)
    requires Step(m, a).flow == Running && InBounds(Step(m, a).s)
    requires Step(Step(m, a), b).flow == Running && InBounds(Step(Step(m, a), b).s)
    ensures RunChars(m, [a, b, c]) == Step(Step(Step(m, a), b), c)
  {
    hide Step, InBounds;
    assert [a, b, c] == [a] + [b] + [c];
    RunOne(m, a);
    RunOne(Step(m, a), b);
    RunOne(Step(Step(m, a), b), c);
    RunConcat(m, [a], [b]);
    RunConcat(m, [a] + [b], [c]);
  }

  // ----- The checksum read -----

  /** The second digit counts sixteenfold with a digit after it, alone before a NUL or a space, and
      as if doubled before anything else. */
  lemma TakenIs(c1: uint8, c2: uint8)
    requires IsHexDigit(c1)
    ensures Taken(c1, c2) ==
      if EndsText(c2) then DigitValue(c1)
      else if IsHexDigit(c2) then 16 * DigitValue(c1) + DigitValue(c2)
      else 0x11 * DigitValue(c1)
  {
    hide NextValue, DigitValue, IsHexDigit;
    var d := DigitValue(c1);
    HexDigitsEndNothing(c1);
    NextValueSmall(0, d);
    assert [c1, c2, NUL][1..] == [c2, NUL] && [c2, NUL][1..] == [NUL];
    assert AtohFrom([c1, c2, NUL], 0, 0) == AtohFrom([c2, NUL], d, d);
    if !EndsText(c2) {
      var e := Digit(c2, d);
      NextValueSmall(d, e);
      assert AtohFrom([NUL], NextValue(d, e), e) == NextValue(d, e);
      assert AtohFrom([c2, NUL], d, d) == NextValue(d, e);
    }
  }

  /** Before an end of line a sound empty record is accepted if and only if both digits of its
      checksum are the same. */
  lemma EmptyRecordAcceptedIff(m: Machine, r: Record, digits: seq<uint8>, terminator: uint8)
    requires m.flow == Running && InBounds(m.s) && m.s.phase == Idle
    requires IsEmpty(r) && Spells(digits, r.body) && r.Sound() && (terminator == CR || terminator == LF)
    ensures var m' := RunChars(m, [CHAR_S, r.recordType] + digits + [terminator]);
      var crc := r.body[|r.body| - 1];
      && m'.flow == Running && m'.ram == m.ram && m.log < m'.log
      && (m'.log[|m'.log| - 1] == SaidOk <==> crc / 16 == crc % 16)
      && (m'.log[|m'.log| - 1] == SaidNotOk <==> crc / 16 != crc % 16)
  {
    hide RunChars, InBounds, Spells, Taken;
    EmptyRecordRead(m, r, digits, terminator);
    var crc := r.body[|r.body| - 1];
    LastTwoDigits(r, digits);
    TakenIs(digits[|digits| - 1], terminator);
    ChecksumDecides(r);
    SameDigits(crc, DigitValue(digits[|digits| - 1]));
  }

  lemma LastTwoDigits(r: Record, digits: seq<uint8>)
    requires r.body != [] && Spells(digits, r.body)
    ensures |digits| >= 2 && IsHexDigit(digits[|digits| - 1])
    ensures DigitValue(digits[|digits| - 1]) == r.body[|r.body| - 1] % 16
  {
    var n := |r.body| - 1;
    assert ByteAt(digits, n) == r.body[n];
  }

  lemma SameDigits(crc: uint8, d: uint8)
    requires d == crc % 16
    ensures 0x11 * (d as int) == crc as int <==> crc / 16 == crc % 16
  {
  }

  // ----- What follows is swallowed -----

  /** The character after the terminator ends the record, even the 'S' of the next one: a record
      that follows after a single character is not read. */
  lemma NextRecordLost(m: Machine, r: Record, digits: seq<uint8>, terminator: uint8, next: seq<uint8>)
    requires m.flow == Running && InBounds(m.s) && m.s.phase == Idle
    requires IsEmpty(r) && Spells(digits, r.body) && CHAR_S !in next
    ensures |digits| >= 2
    ensures var m' := RunChars(m, [CHAR_S, r.recordType] + digits + [terminator] + ([CHAR_S] + next));
      && m'.flow == Running && m'.s.phase == Idle && m'.ram == m.ram
      && m'.log == m.log + EmptyEffects(r, Taken(digits[|digits| - 1], terminator))
  {
    hide RunChars, InBounds, Spells, EmptyEffects, Taken;
    var text := [CHAR_S, r.recordType] + digits + [terminator];
    EmptyRecordRead(m, r, digits, terminator);
    var m1 := RunChars(m, text);
    RunConcat(m, text, [CHAR_S] + next);
    RunConcat(m1, [CHAR_S], next);
    RunOne(m1, CHAR_S);
    StepInBounds(m1, CHAR_S);
    NoiseIgnored(Step(m1, CHAR_S), next);
  }

  /** S1030000FC and the end of a line: sound, empty, and refused. */
  lemma EmptyRecordRefused(m: Machine, terminator: uint8)
    requires m.flow == Running && InBounds(m.s) && m.s.phase == Idle && (terminator == CR || terminator == LF)
    ensures var m' := RunChars(m, [CHAR_S, CHAR_0 + 1] + Encode([3, 0, 0, 0xFC]) + [terminator]);
      m'.log == m.log + [SaidNotOk] && m'.ram == m.ram && m'.flow == Running
  {
    hide RunChars, InBounds, Encode, Taken;
    var r := Record(CHAR_0 + 1, [3, 0, 0, 0xFC]);
    SoundEmpty(r);
    EncodeSpells(r.body);
    EmptyRecordRead(m, r, Encode(r.body), terminator);
    EmptyRecordAcceptedIff(m, r, Encode(r.body), terminator);
  }

  lemma SoundEmpty(r: Record)
    requires r == Record(CHAR_0 + 1, [3, 0, 0, 0xFC])
    ensures IsEmpty(r) && r.Sound()
  {
    SumOfBody(r);
    NoDataNoSum(r.Data());
    assert r.AddressBytes() == [0, 0];
    assert [0, 0][..1] == [0] && [0][..0] == [];
    assert SumOf([0]) == 0;
  }
}

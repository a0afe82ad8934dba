/** When the S-record loader stores past the end of its write buffer: exactly when the count
    of a data record does not cover its own address and checksum, so that the number of data
    bytes wraps around, and enough characters follow. */
module UartOverrun {
  import opened Options
  import opened Words
  import opened Effects
  import opened Hex
  import opened Uart
  import opened UartRecords

  /** The characters of one byte more than the write buffer holds. */
  const OVERRUN := 2 * (MEMORY_WRITE_BUF_LEN + 1)

  /** Between the count and the checksum, the number of data bytes is the count less the
      address and the checksum, in 16-bit arithmetic. */
  predicate Tracked(s: State) {
    s.phase == GetDestinationAddress || s.phase == GetData ==>
      s.totalCount <= 0xFF && s.addressSize <= 4 && s.dataCount == (s.totalCount - s.addressSize - 1) % 0x1_0000
  }

  /** The count does not cover the address and the checksum. */
  predicate TooShort(s: State) {
    s.totalCount < s.addressSize + 1
  }

  /** The machine has just begun to take data. */
  predicate BeginsData(m: Machine) {
    m.flow == Running && m.s.phase == GetData && m.s.rxdCounter == 0
  }

  lemma TooShortWraps(s: State)
    requires Tracked(s) && (s.phase == GetDestinationAddress || s.phase == GetData)
    ensures TooShort(s) <==> s.dataCount >= 0xFFFB
    ensures !TooShort(s) <==> s.dataCount <= 0xFE
  {
  }

  // ----- One character -----

  lemma CountTracked(s: State, c: uint8)
    requires InBounds(s) && s.phase == GetCount
    ensures Tracked(StepCount(s, c)) && StepCount(s, c).phase != GetData
  {
    hide Atoh, Add16;
    if s.fillIndex == 1 {
      AtohOfTwo(s.convBuf[1 := c][2 := NUL][..3]);
    }
  }

  lemma AddressTracked(s: State, c: uint8)
    requires InBounds(s) && s.phase == GetDestinationAddress && Tracked(s)
    ensures var s' := StepAddress(s, c);
      Tracked(s') && (s'.phase == GetData ==> s'.rxdCounter == 0)
  {
    hide Atoh, AddressSum, Add16;
  }

  /** A data character is counted, or ends the data; it leaves the buffer only as the last of
      the overrun. */
  lemma DataTracked(s: State, c: uint8)
    requires InBounds(s) && s.phase == GetData && Tracked(s)
    ensures s.rxdCounter < OVERRUN
    ensures StepData(s, c).None? <==> s.rxdCounter == OVERRUN - 1
    ensures s.rxdCounter > 0xFE * 2 ==> TooShort(s)
    ensures var next := StepData(s, c); next.Some? ==>
      && Tracked(next.value) && next.value.totalCount == s.totalCount && next.value.addressSize == s.addressSize
      && (next.value.phase == GetData ==> next.value.rxdCounter == s.rxdCounter + 1)
      && (TooShort(s) ==> next.value.phase == GetData)
  {
    hide Atoh, SumOf, ToByte;
    TooShortWraps(s);
  }

  lemma StepTracked(m: Machine, c: uint8)
    requires InBounds(m.s) && m.flow == Running && Tracked(m.s)
    ensures var m' := Step(m, c);
      && (m'.flow == Running ==> Tracked(m'.s))
      && (m'.flow == OutOfBounds <==> m.s.phase == GetData && m.s.rxdCounter == OVERRUN - 1)
      && (m'.flow == Running && m'.s.phase == GetData && m'.s.rxdCounter != 0 ==>
            && m.s.phase == GetData && m'.s.rxdCounter == m.s.rxdCounter + 1
            && m'.s.totalCount == m.s.totalCount && m'.s.addressSize == m.s.addressSize)
      && (m.s.phase == GetData && TooShort(m.s) && m'.flow != OutOfBounds ==>
            && m'.flow == Running && m'.s.phase == GetData && m'.s.rxdCounter == m.s.rxdCounter + 1
            && TooShort(m'.s))
  {
    hide StepCount, StepAddress, StepData, Tracked, Conclude;
    match m.s.phase
    case Idle => NotTracking(Step(m, c).s);
    case GetRecordType => NotTracking(Step(m, c).s);
    case GetCount => CountTracked(m.s, c);
    case GetDestinationAddress => AddressTracked(m.s, c);
    case GetData =>
      DataTracked(m.s, c);
    case GetCrc =>
      CrcKeepsBounds(m, c);
    case GetTermination => NotTracking(Step(m, c).s);
  }

  lemma NotTracking(s: State)
    requires s.phase != GetDestinationAddress && s.phase != GetData
    ensures Tracked(s)
  {
  }

  lemma CrcKeepsBounds(m: Machine, c: uint8)
    requires InBounds(m.s) && m.s.phase == GetCrc && m.flow == Running
    ensures var m' := StepCrc(m, c);
      m'.flow != OutOfBounds && (m'.flow == Running ==> m'.s.phase != GetData && Tracked(m'.s))
  {
    hide Atoh, ToByte;
  }

  // ----- Any stream -----

  /** Where the data of the record under way began: as many characters back as are counted. */
  lemma {:induction false} DataBegan(m: Machine, cs: seq<uint8>)
    requires m.flow == Running && InBounds(m.s) && m.s.phase == Idle
    ensures var e := RunChars(m, cs);
      e.flow == Running ==> Tracked(e.s)
    ensures var e := RunChars(m, cs);
      e.flow == Running && e.s.phase == GetData ==>
        && e.s.rxdCounter <= |cs|
        && var b := RunChars(m, cs[..|cs| - e.s.rxdCounter]);
           BeginsData(b) && (TooShort(b.s) <==> TooShort(e.s))
    ensures RunChars(m, cs).flow == OutOfBounds ==> Overruns(m, cs)
    decreases |cs|
  {
    hide Step, InBounds;
    if cs == [] {
      NotTracking(m.s);
    } else {
      var init, c := cs[..|cs| - 1], cs[|cs| - 1];
      DataBegan(m, init);
      var e0 := RunChars(m, init);
      assert cs == init + [c];
      RunConcat(m, init, [c]);
      if e0.flow == Running {
        RunOne(e0, c);
        StepTracked(e0, c);
        var e := Step(e0, c);
        if e.flow == Running && e.s.phase == GetData {
          if e.s.rxdCounter == 0 {
            assert cs[..|cs|] == cs;
          } else {
            assert cs[..|cs| - e.s.rxdCounter] == init[..|init| - e0.s.rxdCounter];
          }
        } else if e.flow == OutOfBounds {
          var k := |init| - e0.s.rxdCounter;
          LastCounted(e0);
          assert cs[..k] == init[..k];
          assert ShortEntry(m, cs, k);
        }
      } else {
        assert RunChars(e0, [c]) == e0;
        if e0.flow == OutOfBounds {
          var k :| 0 <= k <= |init| - OVERRUN && ShortEntry(m, init, k);
          assert cs[..k] == init[..k];
          assert ShortEntry(m, cs, k);
        }
      }
    }
  }

  lemma LastCounted(m: Machine)
    requires InBounds(m.s) && m.s.phase == GetData && Tracked(m.s) && m.s.rxdCounter == OVERRUN - 1
    ensures TooShort(m.s)
  {
    DataTracked(m.s, 0);
  }

  /** After k characters the data of a record begins whose count is too short. */
  ghost predicate ShortEntry(m: Machine, cs: seq<uint8>, k: nat)
    requires Alive(m) && k <= |cs|
  {
    var b := RunChars(m, cs[..k]);
    BeginsData(b) && TooShort(b.s)
  }

  /** Somewhere in the stream such a record is followed by enough characters. */
  ghost predicate Overruns(m: Machine, cs: seq<uint8>)
    requires Alive(m)
  {
    exists k :: 0 <= k <= |cs| - OVERRUN && ShortEntry(m, cs, k)
  }

  /** From the beginning of such data, the store past the buffer comes with the 514th character. */
  lemma {:induction false} ShortDataOverruns(m: Machine, cs: seq<uint8>)
    requires m.flow == Running && InBounds(m.s) && Tracked(m.s) && m.s.phase == GetData && TooShort(m.s)
    ensures m.s.rxdCounter < OVERRUN
    ensures RunChars(m, cs).flow == OutOfBounds <==> m.s.rxdCounter + |cs| >= OVERRUN
    decreases |cs|
  {
    hide Step, InBounds, Tracked, TooShort;
    DataTracked(m.s, 0);
    if cs != [] {
      StepTracked(m, cs[0]);
      StepInBounds(m, cs[0]);
      if Step(m, cs[0]).flow == Running {
        ShortDataOverruns(Step(m, cs[0]), cs[1..]);
      }
    }
  }

  /** The exact condition, for every stream of characters from an idle machine. */
  lemma OverrunIff(m: Machine, cs: seq<uint8>)
    requires m.flow == Running && InBounds(m.s) && m.s.phase == Idle
    ensures RunChars(m, cs).flow == OutOfBounds <==> Overruns(m, cs)
  {
    hide RunChars, InBounds, Tracked, TooShort;
    DataBegan(m, cs);
    if Overruns(m, cs) {
      var k :| 0 <= k <= |cs| - OVERRUN && ShortEntry(m, cs, k);
      DataBegan(m, cs[..k]);
      var b := RunChars(m, cs[..k]);
      assert cs == cs[..k] + cs[k..];
      RunConcat(m, cs[..k], cs[k..]);
      ShortDataOverruns(b, cs[k..]);
    }
  }

  // ----- One record -----

  /** The state in which a data record stands once k address characters are in. */
  ghost predicate TakesAddress(m: Machine, recordType: uint8, count: uint8, k: nat) {
    && m.flow == Running && InBounds(m.s) && IsData(recordType)
    && m.s.phase == GetDestinationAddress && m.s.fillIndex == k && m.s.recordType == recordType
    && Some(m.s.addressSize) == AddressSize(recordType) && m.s.totalCount == count as int
  }

  /** From the 'S' of a data record to its count. */
  lemma CountTaken(m: Machine, recordType: uint8, c1: uint8, c2: uint8, count: uint8)
    requires m.flow == Running && InBounds(m.s) && m.s.phase == Idle && IsData(recordType)
    requires Spells([c1, c2], [count])
    ensures TakesAddress(RunChars(m, [CHAR_S, recordType, c1, c2]), recordType, count, 0)
    ensures forall k :: 0 <= k <= 4 ==> RunChars(m, [CHAR_S, recordType, c1, c2][..k]).s.phase != GetData
  {
    assert m.s.phase != GetData;
    hide RunChars, Step, Spells, InBounds, TakesAddress;
    var cs := [CHAR_S, recordType, c1, c2];
    CountSteps(m, recordType, c1, c2, count);
    assert cs[..0] == [] && cs[..1] == [CHAR_S] && cs[..2] == cs[..1] + [recordType] && cs[..3] == cs[..2] + [c1];
    assert cs[..4] == cs && cs == cs[..3] + [c2];
    NoChars(m);
    RunOne(m, CHAR_S);
    OneMore(m, cs[..1], recordType);
    OneMore(m, cs[..2], c1);
    OneMore(m, cs[..3], c2);
  }

  /** The four steps by themselves. */
  lemma CountSteps(m: Machine, recordType: uint8, c1: uint8, c2: uint8, count: uint8)
    requires m.flow == Running && InBounds(m.s) && m.s.phase == Idle && IsData(recordType)
    requires Spells([c1, c2], [count])
    ensures var m1 := Step(m, CHAR_S);
      && m1.flow == Running && InBounds(m1.s) && m1.s.phase == GetRecordType
      && var m2 := Step(m1, recordType);
      && m2.flow == Running && InBounds(m2.s) && m2.s.phase == GetCount
      && var m3 := Step(m2, c1);
      && m3.flow == Running && InBounds(m3.s) && m3.s.phase == GetCount
      && TakesAddress(Step(m3, c2), recordType, count, 0) && Step(m3, c2).s.phase != GetData
  {
    hide Spells, Atoh;
    var m2 := Step(Step(m, CHAR_S), recordType);
    var m3 := Step(m2, c1);
    assert m3.s.phase == GetCount && m3.s.fillIndex == 1 && m3.s.convBuf[0] == c1;
    ByteConverted(m3.s.convBuf, c1, c2, count);
    AtohOfTwo(m3.s.convBuf[1 := c2][2 := NUL][..3]);
    StepInBounds(m3, c2);
  }

  lemma OneMore(m: Machine, cs: seq<uint8>, c: uint8)
    requires Alive(m)
    ensures RunChars(m, cs).flow == Running ==> RunChars(m, cs + [c]) == Step(RunChars(m, cs), c)
  {
    RunConcat(m, cs, [c]);
    if RunChars(m, cs).flow == Running {
      RunOne(RunChars(m, cs), c);
    }
  }

  lemma NoChars(m: Machine)
    requires Alive(m)
    ensures RunChars(m, []) == m
  {
  }

  /** The address characters, whatever they are, lead to the data and not before their end. */
  lemma {:induction false} AddressTaken(m: Machine, recordType: uint8, count: uint8, k: nat, address: seq<uint8>)
    requires TakesAddress(m, recordType, count, k) && address != []
    requires k + |address| == 2 * m.s.addressSize
    ensures var b := RunChars(m, address);
      BeginsData(b) && b.s.totalCount == count as int && b.s.addressSize == m.s.addressSize
    ensures forall i :: 0 <= i < |address| ==> RunChars(m, address[..i]).s.phase != GetData
    decreases |address|
  {
    hide Atoh, AddressSum, Add16;
    var m1 := Step(m, address[0]);
    StepInBounds(m, address[0]);
    assert address == [address[0]] + address[1..];
    if |address| == 1 {
      assert address[1..] == [] && address[..0] == [];
    } else {
      AddressTaken(m1, recordType, count, k + 1, address[1..]);
      forall i | 0 <= i < |address|
        ensures RunChars(m, address[..i]).s.phase != GetData
      {
        if i > 0 {
          assert address[..i][0] == address[0] && address[..i][1..] == address[1..][..i - 1];
        }
      }
    }
  }

  /** The first characters of a data record: no data is taken before the address is complete. */
  lemma HeadTaken(m: Machine, recordType: uint8, c1: uint8, c2: uint8, count: uint8, address: seq<uint8>)
    requires m.flow == Running && InBounds(m.s) && m.s.phase == Idle && IsData(recordType)
    requires Spells([c1, c2], [count]) && |address| == 2 * AddressSize(recordType).value as int
    ensures var head := [CHAR_S, recordType, c1, c2] + address;
      var b := RunChars(m, head);
      && BeginsData(b) && (TooShort(b.s) <==> count as int < AddressSize(recordType).value + 1)
      && forall k :: 0 <= k < |head| ==> RunChars(m, head[..k]).s.phase != GetData
  {
    hide RunChars, InBounds, Spells;
    var first := [CHAR_S, recordType, c1, c2];
    CountTaken(m, recordType, c1, c2, count);
    AddressTaken(RunChars(m, first), recordType, count, 0, address);
    RunConcat(m, first, address);
    var head := first + address;
    forall k | 0 <= k < |head|
      ensures RunChars(m, head[..k]).s.phase != GetData
    {
      if k <= 4 {
        assert head[..k] == first[..k];
      } else {
        assert head[..k] == first + address[..k - 4];
        RunConcat(m, first, address[..k - 4]);
      }
    }
  }

  /** The exact condition on the text of one data record: followed by at most 514 characters it
      overruns the buffer if and only if its count is less than its address and checksum take
      and all 514 are there. */
  lemma RecordOverrunsIff(m: Machine, recordType: uint8, c1: uint8, c2: uint8, count: uint8,
                          address: seq<uint8>, data: seq<uint8>)
    requires m.flow == Running && InBounds(m.s) && m.s.phase == Idle && IsData(recordType)
    requires Spells([c1, c2], [count]) && |address| == 2 * AddressSize(recordType).value as int
    requires |data| <= OVERRUN
    ensures RunChars(m, [CHAR_S, recordType, c1, c2] + address + data).flow == OutOfBounds
       <==> count as int < AddressSize(recordType).value + 1 && |data| == OVERRUN
  {
    hide RunChars, InBounds, Spells, TooShort;
    var head := [CHAR_S, recordType, c1, c2] + address;
    HeadTaken(m, recordType, c1, c2, count, address);
    var cs := head + data;
    assert cs[..|head|] == head;
    OverrunIff(m, cs);
    if Overruns(m, cs) {
      var k :| 0 <= k <= |cs| - OVERRUN && ShortEntry(m, cs, k);
      assert cs[..k] == head[..k];
    }
    if count as int < AddressSize(recordType).value + 1 && |data| == OVERRUN {
      assert ShortEntry(m, cs, |head|);
    }
  }

  /** S100, four address digits, and 514 characters more. */
  lemma CountZeroOverruns(m: Machine, address: seq<uint8>, data: seq<uint8>)
    requires m.flow == Running && InBounds(m.s) && m.s.phase == Idle
    requires |address| == 4 && |data| == OVERRUN
    ensures RunChars(m, [CHAR_S, CHAR_0 + 1, CHAR_0, CHAR_0] + address + data).flow == OutOfBounds
  {
    hide RunChars, InBounds;
    assert Spells([CHAR_0, CHAR_0], [0]);
    RecordOverrunsIff(m, CHAR_0 + 1, CHAR_0, CHAR_0, 0, address, data);
  }
}

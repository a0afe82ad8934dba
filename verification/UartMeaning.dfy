/** What the S-records of a2_boot/uartProtocol.c mean, spelled out: characters are their ASCII
    codes, and each type of record says how many bytes its address has and what is done. */
module UartMeaning {
  import opened Options
  import opened Words
  import opened Memory
  import opened Effects
  import opened Hex
  import opened Uart
  import opened UartRecords

  /** The character c is a digit of value d, in either case. */
  predicate Denotes(c: uint8, d: nat) {
    (d < 10 && c as int == 48 + d) || (10 <= d < 16 && (c as int == 65 + (d - 10) || c as int == 97 + (d - 10)))
  }

  /** The text writes the bytes, two digits each. */
  predicate Writes(text: seq<uint8>, bytes: seq<uint8>) {
    && |text| == 2 * |bytes|
    && forall k :: 0 <= k < |bytes| ==> Denotes(text[2 * k], bytes[k] / 16) && Denotes(text[2 * k + 1], bytes[k] % 16)
  }

  function Sum(bytes: seq<uint8>): nat {
    if bytes == [] then 0 else bytes[0] as nat + Sum(bytes[1..])
  }

  /** The number that two, three or four bytes denote, most significant first. */
  function Number(a: seq<uint8>): uint32
    requires 2 <= |a| <= 4
  {
    var a0: nat, a1: nat, last: nat := a[0], a[1], a[|a| - 1];
    if |a| == 2 then 0x100 * a0 + last
    else if |a| == 3 then 0x1_0000 * a0 + 0x100 * a1 + last
    else var a2: nat := a[2]; 0x100_0000 * a0 + 0x1_0000 * a1 + 0x100 * a2 + last
  }

  /** A record by its parts. S0 and S1 have two address bytes, S2 three, S3 four; the records that
      start the program have no data, S7 four address bytes, S8 three, S9 two. */
  predicate Parts(r: Record, address: seq<uint8>, data: seq<uint8>, sum: uint8) {
    && |address| + |data| + 1 < 0x100
    && r.body == [(|address| + |data| + 1) as uint8] + address + data + [sum]
    && (|| ((r.recordType == 48 || r.recordType == 49) && |address| == 2 && data != [])
        || (r.recordType == 50 && |address| == 3 && data != [])
        || (r.recordType == 51 && |address| == 4 && data != [])
        || (r.recordType == 55 && |address| == 4 && data == [])
        || (r.recordType == 56 && |address| == 3 && data == [])
        || (r.recordType == 57 && |address| == 2 && data == []))
  }

  /** What is done: an unsound record is refused, a zero address is passed over, S1, S2 and S3 store,
      S7, S8 and S9 jump. */
  function Done(kind: uint8, total: nat, address: uint32, data: seq<uint8>): seq<Event> {
    if total % 0x100 != 0xFF then [SaidNotOk]
    else if address == 0 || kind == 48 then [SaidOk]
    else if kind == 49 || kind == 50 || kind == 51 then [Wrote(address, data), SaidOk]
    else [Jumped(address)]
  }

  lemma DenotesValue(c: uint8, d: nat)
    requires Denotes(c, d)
    ensures IsHexDigit(c) && DigitValue(c) == d
  {
  }

  lemma WritesSpells(text: seq<uint8>, bytes: seq<uint8>)
    requires Writes(text, bytes)
    ensures Spells(text, bytes)
  {
    hide IsHexDigit, DigitValue, Denotes;
    forall i | 0 <= i < |text|
      ensures IsHexDigit(text[i])
    {
      var k := i / 2;
      assert i == 2 * k || i == 2 * k + 1;
      assert Denotes(text[2 * k], bytes[k] / 16) && Denotes(text[2 * k + 1], bytes[k] % 16);
      DenotesValue(text[i], if i == 2 * k then bytes[k] / 16 else bytes[k] % 16);
    }
    forall k | 0 <= k < |bytes|
      ensures ByteAt(text, k) == bytes[k]
    {
      DenotesValue(text[2 * k], bytes[k] / 16);
      DenotesValue(text[2 * k + 1], bytes[k] % 16);
    }
  }

  lemma {:induction false} SumIs(bytes: seq<uint8>)
    ensures Sum(bytes) == SumOf(bytes)
  {
    if bytes != [] {
      SumIs(bytes[1..]);
      assert bytes == [bytes[0]] + bytes[1..];
      SumConcat([bytes[0]], bytes[1..]);
      assert [bytes[0]][..0] == [];
    }
  }

  lemma NumberIs(a: seq<uint8>)
    requires 2 <= |a| <= 4
    ensures BigEndian(a) == Number(a)
  {
    var v0: nat := a[0];
    var v1: nat := 0x100 * v0 + a[1];
    assert BigEndian(a) == BigEndianFrom(a[1..], v0) == BigEndianFrom(a[2..], v1);
    if |a| > 2 {
      var v2: nat := 0x100 * v1 + a[2];
      assert BigEndianFrom(a[2..], v1) == BigEndianFrom(a[3..], v2);
      if |a| > 3 {
        assert BigEndianFrom(a[3..], v2) == BigEndianFrom(a[4..], 0x100 * v2 + a[3]);
      }
    }
  }

  lemma PartsAre(r: Record, address: seq<uint8>, data: seq<uint8>, sum: uint8)
    requires Parts(r, address, data, sum)
    ensures r.InDomain() && r.AddressBytes() == address && r.Data() == data
  {
    var n := |address|;
    assert r.AddressLength() == n;
    assert r.body[1..1 + n] == address;
    assert r.body[1 + n..|r.body| - 1] == data;
  }

  /** The decoder's effects of a record, from its parts. */
  lemma EffectsMean(r: Record, address: seq<uint8>, data: seq<uint8>, sum: uint8)
    requires Parts(r, address, data, sum)
    ensures r.InDomain()
    ensures r.Effects() == Done(r.recordType, Sum(r.body), Number(address), data)
    ensures r.Leaves() <==> Sum(r.body) % 0x100 == 0xFF && Number(address) != 0 && r.recordType >= 55
  {
    hide SumOf, Sum, BigEndian, Number;
    PartsAre(r, address, data, sum);
    SumIs(r.body);
    NumberIs(address);
  }

  /** The loader reads a record of the given parts, its digits in either case, and one character
      after it. */
  lemma RecordRead(m: Machine, r: Record, address: seq<uint8>, data: seq<uint8>, sum: uint8,
                   digits: seq<uint8>, terminator: uint8)
    requires m.flow == Running && InBounds(m.s) && m.s.phase == Idle
    requires Parts(r, address, data, sum) && Writes(digits, r.body)
    ensures var m' := RunChars(m, [83, r.recordType] + digits + [terminator]);
      var sound, a := Sum(r.body) % 0x100 == 0xFF, Number(address);
      && m'.log == m.log + Done(r.recordType, Sum(r.body), a, data)
      && (m'.ram == if sound && a != 0 && r.recordType in {49, 50, 51} then Blit(m.ram, a, data) else m.ram)
      && (m'.flow == if sound && a != 0 && r.recordType in {55, 56, 57} then Gone else Running)
      && (m'.flow == Running ==> m'.s.phase == Idle)
  {
    hide Sum, Number, RunChars, Parts, Writes, Record.Effects, Record.InDomain, Record.Leaves;
    Kinds(r, address, data, sum);
    EffectsMean(r, address, data, sum);
    WritesSpells(digits, r.body);
    var line := Line(r, digits, terminator, []);
    LineRead(m, line);
    assert line.Text() == [83, r.recordType] + digits + [terminator];
    ReplayedOnce(m.ram, r, Sum(r.body), Number(address), data);
  }

  lemma Kinds(r: Record, address: seq<uint8>, data: seq<uint8>, sum: uint8)
    requires Parts(r, address, data, sum)
    ensures 2 <= |address| <= 4 && r.recordType in {48, 49, 50, 51, 55, 56, 57}
  {
  }

  lemma ReplayedOnce(ram: Ram, r: Record, total: nat, a: uint32, data: seq<uint8>)
    ensures Replay(ram, Done(r.recordType, total, a, data))
         == if total % 0x100 == 0xFF && a != 0 && r.recordType in {49, 50, 51} then Blit(ram, a, data) else ram
  {
    hide Blit;
    var events := Done(r.recordType, total, a, data);
    if events == [Wrote(a, data), SaidOk] {
      assert events[1..] == [SaidOk];
      ReplayOne(Blit(ram, a, data), SaidOk);
    } else {
      ReplayOne(ram, events[0]);
    }
  }

  /** A record count, S5, is the end of the session: its type is accepted, but no state follows its
      address, so nothing received after it has any effect. */
  lemma CountRecordHangs(m: Machine, digits: seq<uint8>, rest: seq<uint8>)
    requires m.flow == Running && InBounds(m.s) && m.s.phase == Idle && |digits| == 2
    ensures var m' := RunChars(m, [83, 53] + digits + rest);
      m'.flow == Running && m'.s.phase == GetDestinationAddress && m'.log == m.log && m'.ram == m.ram
  {
    var m1 := Step(m, 83);
    var m2 := Step(m1, 53);
    StepInBounds(m, 83);
    StepInBounds(m1, 53);
    var m3 := Step(m2, digits[0]);
    StepInBounds(m2, digits[0]);
    var m4 := Step(m3, digits[1]);
    StepInBounds(m3, digits[1]);
    RunConcat(m, [83, 53] + digits, rest);
    RunConcat(m, [83, 53], digits);
    RunConcat(m, [83], [53]);
    RunOne(m, 83);
    RunOne(m1, 53);
    var s: seq<uint8>, five: seq<uint8> := [83], [53];
    assert [83, 53] == s + five;
    RunConcat(m2, [digits[0]], [digits[1]]);
    assert digits == [digits[0]] + [digits[1]];
    RunOne(m2, digits[0]);
    RunOne(m3, digits[1]);
    Hanging(m4, rest);
  }

  lemma {:induction false} Hanging(m: Machine, rest: seq<uint8>)
    requires m.flow == Running && InBounds(m.s) && m.s.phase == GetDestinationAddress && m.s.recordType == 53
    ensures var m' := RunChars(m, rest);
      m'.flow == Running && m'.s.phase == GetDestinationAddress && m'.log == m.log && m'.ram == m.ram
    decreases |rest|
  {
    if rest != [] {
      StepInBounds(m, rest[0]);
      Hanging(Step(m, rest[0]), rest[1..]);
    }
  }
}

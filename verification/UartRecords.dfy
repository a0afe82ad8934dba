/** Whole S-records (Motorola S-record format, Appendix C of the M68000 Family
    Programmer's Reference Manual) and the proof that the character-by-character
    machine does with a stream of them what a decoder of whole records does. */
module UartRecords {
  import opened Options
  import opened Words
  import opened Memory
  import opened Effects
  import opened Hex
  import opened Uart

  // ----- The decoder of whole records -----

  /** A record's type character and its bytes: count, address, data, checksum. */
  datatype Record = Record(recordType: uint8, body: seq<uint8>) {

    function AddressLength(): nat {
      if AddressSize(recordType).Some? then AddressSize(recordType).value else 0
    }

    /** A known type, a count that matches, and data in data records only. */
    predicate Shaped() {
      && AddressSize(recordType).Some?
      && |body| >= 1 && |body| - 1 == body[0] as int
      && (if IsStart(recordType) then body[0] == AddressLength() + 1 else body[0] >= AddressLength() + 1)
    }

    /** What the loader reads as meant: a data record has data. */
    predicate InDomain() {
      Shaped() && (IsStart(recordType) || body[0] > AddressLength() + 1)
    }

    function AddressBytes(): seq<uint8>
      requires Shaped()
    {
      body[1..1 + AddressLength()]
    }

    function Data(): seq<uint8>
      requires Shaped()
    {
      body[1 + AddressLength()..|body| - 1]
    }

    function Address(): uint32
      requires Shaped()
    {
      AddressFits(AddressBytes());
      BigEndian(AddressBytes())
    }

    /** The bytes of a sound record, checksum included, add up to 0xFF. */
    predicate Sound() {
      SumOf(body) % 0x100 == 0xFF
    }

    /** Everything the loader does about the record. */
    function Effects(): seq<Event>
      requires InDomain()
    {
      if !Sound() then [SaidNotOk]
      else if Address() == 0 then [SaidOk]
      else if IsStore(recordType) then [Wrote(Address(), Data()), SaidOk]
      else if IsStart(recordType) then [Jumped(Address())]
      else [SaidOk]
    }

    predicate Leaves()
      requires InDomain()
    {
      Sound() && Address() != 0 && IsStart(recordType)
    }
  }

  /** The effects of a list of records, up to the first that jumps. */
  function Decode(rs: seq<Record>): seq<Event>
    requires forall r :: r in rs ==> r.InDomain()
  {
    if rs == [] then []
    else if rs[0].Leaves() then rs[0].Effects()
    else rs[0].Effects() + Decode(rs[1..])
  }

  predicate SomeLeaves(rs: seq<Record>)
    requires forall r :: r in rs ==> r.InDomain()
  {
    exists i :: 0 <= i < |rs| && rs[i].Leaves()
  }

  // ----- Text -----

  /** A record as received: its digits in either case, one character of any kind
      after them, and then characters other than 'S'. */
  datatype Line = Line(record: Record, digits: seq<uint8>, terminator: uint8, noise: seq<uint8>) {

    ghost predicate WellFormed() {
      record.InDomain() && Spells(digits, record.body) && CHAR_S !in noise
    }

    function Text(): seq<uint8> {
      [CHAR_S, record.recordType] + digits + [terminator] + noise
    }
  }

  function TextOf(lines: seq<Line>): seq<uint8> {
    if lines == [] then [] else lines[0].Text() + TextOf(lines[1..])
  }

  function Records(lines: seq<Line>): (rs: seq<Record>)
    ensures |rs| == |lines| && forall i :: 0 <= i < |lines| ==> rs[i] == lines[i].record
  {
    seq(|lines|, i requires 0 <= i < |lines| => lines[i].record)
  }

  // ----- Runs -----

  ghost predicate Alive(m: Machine) {
    m.flow == Running ==> InBounds(m.s)
  }

  function RunChars(m: Machine, cs: seq<uint8>): (m': Machine)
    requires Alive(m)
    ensures Alive(m')
    decreases |cs|
  {
    if cs == [] || m.flow != Running then m
    else
      StepInBounds(m, cs[0]);
      RunChars(Step(m, cs[0]), cs[1..])
  }

  /** A run of polls, each of which may find a character waiting. */
  function Run(m: Machine, polls: seq<Option<uint8>>): Machine
    requires Alive(m)
    decreases |polls|
  {
    if polls == [] || m.flow != Running then m
    else
      (match polls[0]
       case None => Run(m, polls[1..])
       case Some(c) => StepInBounds(m, c); Run(Step(m, c), polls[1..]))
  }

  function Received(polls: seq<Option<uint8>>): seq<uint8> {
    if polls == [] then []
    else (if polls[0].Some? then [polls[0].value] else []) + Received(polls[1..])
  }

  /** Empty polls change nothing, wherever they fall. */
  lemma {:induction false} EmptyPolls(m: Machine, polls: seq<Option<uint8>>)
    requires Alive(m)
    ensures Run(m, polls) == RunChars(m, Received(polls))
    decreases |polls|
  {
    hide Step;
    if polls != [] && m.flow == Running {
      if polls[0].Some? {
        var c := polls[0].value;
        StepInBounds(m, c);
        assert Received(polls) == [c] + Received(polls[1..]);
        assert Received(polls)[1..] == Received(polls[1..]);
        EmptyPolls(Step(m, c), polls[1..]);
      } else {
        assert Received(polls) == Received(polls[1..]);
        EmptyPolls(m, polls[1..]);
      }
    }
  }

  lemma {:induction false} RunConcat(m: Machine, a: seq<uint8>, b: seq<uint8>)
    requires Alive(m)
    ensures RunChars(m, a + b) == RunChars(RunChars(m, a), b)
    decreases |a|
  {
    hide Step;
    if a == [] {
      assert a + b == b;
    } else if m.flow == Running {
      StepInBounds(m, a[0]);
      assert (a + b)[0] == a[0] && (a + b)[1..] == a[1..] + b;
      RunConcat(Step(m, a[0]), a[1..], b);
    }
  }

  lemma RunOne(m: Machine, c: uint8)
    requires Alive(m) && m.flow == Running
    ensures RunChars(m, [c]) == Step(m, c)
  {
    hide Step;
    StepInBounds(m, c);
    assert [c][1..] == [];
  }

  // ----- Sums and numbers -----

  lemma {:induction false} SumConcat(a: seq<uint8>, b: seq<uint8>)
    ensures SumOf(a + b) == SumOf(a) + SumOf(b)
    decreases |b|
  {
    if b == [] {
      assert a + b == a;
    } else {
      assert (a + b)[..|a + b| - 1] == a + b[..|b| - 1];
      SumConcat(a, b[..|b| - 1]);
    }
  }

  lemma {:induction false} SumBound(a: seq<uint8>)
    ensures SumOf(a) <= 0xFF * |a|
  {
    if a != [] {
      SumBound(a[..|a| - 1]);
    }
  }

  /** A big-endian number of up to four bytes: it fits a word, and the byte sum the
      loader takes of it is the sum of its bytes. */
  lemma AddressFits(bytes: seq<uint8>)
    requires |bytes| <= 4
    ensures BigEndian(bytes) < WORD
    ensures AddressSum(BigEndian(bytes)) == SumOf(bytes)
  {
    hide Word32, AddressSum;
    var padded := seq<uint8>(4 - |bytes|, _ => 0) + bytes;
    FourBytes(padded);
    FourSums(padded);
    WordDigits(padded[3], padded[2], padded[1], padded[0]);
    LeadingZeros(bytes, 4 - |bytes|);
  }

  lemma {:induction false} LeadingZeros(bytes: seq<uint8>, n: nat)
    ensures var padded := seq<uint8>(n, _ => 0) + bytes;
      BigEndian(padded) == BigEndian(bytes) && SumOf(padded) == SumOf(bytes)
    decreases n
  {
    var padded := seq<uint8>(n, _ => 0) + bytes;
    if n == 0 {
      assert padded == bytes;
    } else {
      assert padded[1..] == seq<uint8>(n - 1, _ => 0) + bytes;
      assert padded == [0] + padded[1..];
      SumConcat([0], padded[1..]);
      assert SumOf([0]) == SumOf([0][..0]) + 0;
      LeadingZeros(bytes, n - 1);
    }
  }

  function Sum4(a: nat, b: nat, c: nat, d: nat): nat {
    a + b + c + d
  }

  lemma WordDigits(a: uint8, b: uint8, c: uint8, d: uint8)
    ensures AddressSum(Word32(a, b, c, d)) == Sum4(a, b, c, d)
  {
    var q2: nat := c + 0x100 * (d as int);
    var q1: nat := b + 0x100 * q2;
    assert Word32(a, b, c, d) == a + 0x100 * q1;
    ByteDigit(a, q1);
    ByteDigit(b, q2);
    ByteDigit(c, d);
  }

  lemma ByteDigit(b: uint8, q: nat)
    ensures (b + 0x100 * q) / 0x100 == q && (b + 0x100 * q) % 0x100 == b
  {
  }

  lemma FourBytes(bytes: seq<uint8>)
    requires |bytes| == 4
    ensures BigEndian(bytes) == Word32(bytes[3], bytes[2], bytes[1], bytes[0])
  {
    var v0: nat := bytes[0];
    var v1: nat := 0x100 * v0 + bytes[1];
    var v2: nat := 0x100 * v1 + bytes[2];
    assert BigEndian(bytes) == BigEndianFrom(bytes[1..], v0);
    assert bytes[1..][1..] == bytes[2..];
    assert bytes[2..][1..] == bytes[3..];
    assert BigEndianFrom(bytes[1..], v0) == BigEndianFrom(bytes[2..], v1);
    assert BigEndianFrom(bytes[2..], v1) == BigEndianFrom(bytes[3..], v2);
    assert bytes[3..][1..] == [];
    assert BigEndianFrom(bytes[3..], v2) == 0x100 * v2 + bytes[3];
  }

  lemma FourSums(bytes: seq<uint8>)
    requires |bytes| == 4
    ensures SumOf(bytes) == Sum4(bytes[3], bytes[2], bytes[1], bytes[0])
  {
    assert bytes[..3][..2] == bytes[..2];
    assert bytes[..2][..1] == bytes[..1];
    assert SumOf(bytes[..1]) == bytes[0];
    assert SumOf(bytes[..2]) == SumOf(bytes[..1]) + bytes[1];
    assert SumOf(bytes[..3]) == SumOf(bytes[..2]) + bytes[2];
  }

  // ----- One record, phase by phase -----

  /** The machine is in the given phase of record r, which it began in m0, and has
      done nothing visible about it yet. */
  ghost predicate At(m: Machine, m0: Machine, r: Record, phase: Phase) {
    && m == m0.(s := m.s, stopMsg := true, stopI2c := true)
    && m.flow == Running && InBounds(m.s)
    && m.s.phase == phase && m.s.recordType == r.recordType && m.s.addressSize == r.AddressLength()
  }

  lemma HeaderRead(m: Machine, r: Record)
    requires m.flow == Running && InBounds(m.s) && m.s.phase == Idle && r.Shaped()
    ensures var m' := RunChars(m, [CHAR_S, r.recordType]);
      At(m', m, r, GetCount) && m'.s.fillIndex == 0 && m'.s.chkSum == 0
  {
    RunConcat(m, [CHAR_S], [r.recordType]);
    assert [CHAR_S] + [r.recordType] == [CHAR_S, r.recordType];
    RunOne(m, CHAR_S);
    RunOne(Step(m, CHAR_S), r.recordType);
  }

  /** The machine has read k digits of the address. */
  ghost predicate AtAddress(m: Machine, m0: Machine, r: Record, digits: seq<uint8>, k: nat)
    requires r.Shaped() && k <= |digits| <= 8
  {
    && At(m, m0, r, GetDestinationAddress)
    && m.s.fillIndex == k && m.s.convBuf[..k] == digits[..k]
    && m.s.chkSum == r.body[0] as int && m.s.dataCount == |r.Data()|
  }

  lemma CountRead(m: Machine, m0: Machine, r: Record, text: seq<uint8>, digits: seq<uint8>)
    requires r.Shaped() && Spells(text, r.body[..1]) && |digits| <= 8
    requires At(m, m0, r, GetCount) && m.s.fillIndex == 0 && m.s.chkSum == 0
    ensures AtAddress(RunChars(m, text), m0, r, digits, 0)
  {
    hide Step, AtAddress;
    CountDigits(m, m0, r, text[0], text[1], digits);
    assert text == [text[0], text[1]];
    StepInBounds(m, text[0]);
    assert [text[0]] + [text[1]] == text;
    RunConcat(m, [text[0]], [text[1]]);
    RunOne(m, text[0]);
    RunOne(Step(m, text[0]), text[1]);
  }

  lemma CountFirst(m: Machine, m0: Machine, r: Record, c: uint8)
    requires At(m, m0, r, GetCount) && m.s.fillIndex == 0
    ensures var m' := Step(m, c);
      && At(m', m0, r, GetCount) && m'.s.fillIndex == 1 && m'.s.convBuf[0] == c
      && m'.s.chkSum == m.s.chkSum
  {
    hide Atoh;
    StepInBounds(m, c);
  }

  lemma CountDigits(m: Machine, m0: Machine, r: Record, c1: uint8, c2: uint8, digits: seq<uint8>)
    requires r.Shaped() && Spells([c1, c2], r.body[..1]) && |digits| <= 8
    requires At(m, m0, r, GetCount) && m.s.fillIndex == 0 && m.s.chkSum == 0
    ensures Step(m, c1).flow == Running && InBounds(Step(m, c1).s)
    ensures AtAddress(Step(Step(m, c1), c2), m0, r, digits, 0)
  {
    hide Atoh, BigEndian, Spells;
    CountFirst(m, m0, r, c1);
    var m1 := Step(m, c1);
    StepInBounds(m1, c2);
    assert m1.s.convBuf[1 := c2][2 := NUL][..3] == [c1, c2] + [NUL];
    AtohSpelled([c1, c2], r.body[..1]);
    BigEndianOne(r.body[..1]);
  }

  lemma BigEndianOne(bytes: seq<uint8>)
    requires |bytes| == 1
    ensures BigEndian(bytes) == bytes[0]
  {
    var v: nat := bytes[0];
    assert BigEndian(bytes) == BigEndianFrom(bytes[1..], v);
  }

  /** All that is known when the address is in: k data bytes have been stored. */
  ghost predicate Known(m: Machine, r: Record, k: nat)
    requires r.Shaped() && k <= |r.Data()|
  {
    && m.s.fillIndex == 0 && m.s.address == r.Address()
    && m.s.writeIndex == k && |m.s.writeBuf| == MEMORY_WRITE_BUF_LEN && k <= MEMORY_WRITE_BUF_LEN
    && m.s.writeBuf[..k] == r.Data()[..k]
  }

  /** The machine is about to read data byte k. */
  ghost predicate AtData(m: Machine, m0: Machine, r: Record, k: nat)
    requires r.Shaped() && k <= |r.Data()|
  {
    && At(m, m0, r, GetData) && Known(m, r, k)
    && m.s.rxdCounter == 2 * k && m.s.dataCount == |r.Data()|
    && m.s.chkSum == r.body[0] as int + SumOf(r.AddressBytes())
  }

  /** The machine is about to read the checksum. */
  ghost predicate AtCrc(m: Machine, m0: Machine, r: Record)
    requires r.Shaped()
  {
    && At(m, m0, r, GetCrc) && Known(m, r, |r.Data()|)
    && m.s.chkSum == r.body[0] as int + SumOf(r.AddressBytes()) + SumOf(r.Data())
  }

  lemma {:induction false} AddressRead(m: Machine, m0: Machine, r: Record, digits: seq<uint8>, k: nat)
    requires r.Shaped() && Spells(digits, r.AddressBytes()) && k < |digits|
    requires AtAddress(m, m0, r, digits, k)
    ensures var m' := RunChars(m, digits[k..]);
      if IsStart(r.recordType) then AtCrc(m', m0, r) else AtData(m', m0, r, 0)
    decreases |digits| - k
  {
    hide StepAddress, InBounds;
    var c := digits[k];
    var m1 := Step(m, c);
    StepInBounds(m, c);
    assert digits[k..] == [c] + digits[k + 1..];
    RunConcat(m, [c], digits[k + 1..]);
    RunOne(m, c);
    AddressDigit(m, m0, r, digits, k);
    if k + 1 < |digits| {
      AddressRead(m1, m0, r, digits, k + 1);
    } else {
      assert digits[k + 1..] == [];
    }
  }

  lemma AddressDigit(m: Machine, m0: Machine, r: Record, digits: seq<uint8>, k: nat)
    requires r.Shaped() && Spells(digits, r.AddressBytes()) && k < |digits|
    requires AtAddress(m, m0, r, digits, k)
    ensures var m' := Step(m, digits[k]);
      if k + 1 < |digits| then AtAddress(m', m0, r, digits, k + 1)
      else if IsStart(r.recordType) then AtCrc(m', m0, r) else AtData(m', m0, r, 0)
  {
    if k + 1 < |digits| {
      hide Atoh, BigEndian, AddressSum, Spells;
      StepInBounds(m, digits[k]);
      assert |digits| == 2 * r.AddressLength();
      assert m.s.convBuf[k := digits[k]][..k + 1] == digits[..k + 1];
    } else {
      LastAddressDigit(m, m0, r, digits);
    }
  }

  lemma LastAddressDigit(m: Machine, m0: Machine, r: Record, digits: seq<uint8>)
    requires r.Shaped() && Spells(digits, r.AddressBytes()) && digits != []
    requires AtAddress(m, m0, r, digits, |digits| - 1)
    ensures var m' := Step(m, digits[|digits| - 1]);
      if IsStart(r.recordType) then AtCrc(m', m0, r) else AtData(m', m0, r, 0)
  {
    hide Atoh, BigEndian, AddressSum, SumOf;
    var k := |digits| - 1;
    StepInBounds(m, digits[k]);
    assert m.s.convBuf[k := digits[k]][..k + 1] == digits;
    assert m.s.convBuf[k := digits[k]][k + 1 := NUL][..k + 2] == digits + [NUL];
    AtohSpelled(digits, r.AddressBytes());
    AddressFits(r.AddressBytes());
    SumBound(r.AddressBytes());
    NoDataNoSum(r.Data());
  }

  lemma NoDataNoSum(data: seq<uint8>)
    ensures |data| == 0 ==> SumOf(data) == 0
  {
  }

  lemma {:induction false} DataRead(m: Machine, m0: Machine, r: Record, digits: seq<uint8>, k: nat)
    requires r.InDomain() && Spells(digits, r.Data()) && k < |r.Data()|
    requires AtData(m, m0, r, k)
    ensures AtCrc(RunChars(m, digits[2 * k..]), m0, r)
    decreases |digits| - k
  {
    hide AtCrc, Step;
    var pair := digits[2 * k..2 * k + 2];
    assert digits[2 * k..] == pair + digits[2 * (k + 1)..];
    RunConcat(m, pair, digits[2 * (k + 1)..]);
    DataByte(m, m0, r, digits, k);
    if k + 1 < |r.Data()| {
      DataRead(RunChars(m, pair), m0, r, digits, k + 1);
    } else {
      assert digits[2 * (k + 1)..] == [];
    }
  }

  /** Between the two digits of data byte k. */
  ghost predicate AtHalf(m: Machine, m0: Machine, r: Record, k: nat, c: uint8)
    requires r.InDomain() && k < |r.Data()|
  {
    && At(m, m0, r, GetData) && m.s.fillIndex == 1 && m.s.convBuf[0] == c
    && m.s.address == r.Address()
    && m.s.writeIndex == k && m.s.writeBuf[..k] == r.Data()[..k]
    && m.s.rxdCounter == 2 * k + 1 && m.s.dataCount == |r.Data()|
    && m.s.chkSum == r.body[0] as int + SumOf(r.AddressBytes())
  }

  lemma FirstDigit(m: Machine, m0: Machine, r: Record, k: nat, c: uint8)
    requires r.InDomain() && k < |r.Data()| && AtData(m, m0, r, k)
    ensures AtHalf(Step(m, c), m0, r, k, c)
  {
    hide StoreByte, SumOf, BigEndian;
    StepInBounds(m, c);
  }

  /** The byte two digits spell, as the loader stores it. */
  lemma ByteConverted(buf: seq<uint8>, c1: uint8, c2: uint8, b: uint8)
    requires |buf| >= 3 && buf[0] == c1 && Spells([c1, c2], [b])
    ensures ToByte(Atoh(buf[1 := c2][2 := NUL][..3])) == b
  {
    hide Atoh, BigEndian, Spells;
    assert buf[1 := c2][2 := NUL][..3] == [c1, c2] + [NUL];
    AtohSpelled([c1, c2], [b]);
    BigEndianOne([b]);
  }

  /** The step that stores the byte. */
  lemma ByteStored(m: Machine, b: uint8, c: uint8)
    requires m.flow == Running && InBounds(m.s) && m.s.phase == GetData && m.s.fillIndex == 1
    requires m.s.writeIndex < MEMORY_WRITE_BUF_LEN && Spells([m.s.convBuf[0], c], [b])
    ensures var m' := Step(m, c);
      var t := StoreByte(m.s.(convBuf := m.s.convBuf[1 := c], fillIndex := 2));
      && m' == m.(s := CountCharacter(t))
      && t == m.s.(convBuf := t.convBuf, writeBuf := m.s.writeBuf[m.s.writeIndex := b],
                   writeIndex := m.s.writeIndex + 1, fillIndex := 0)
  {
    hide Atoh, BigEndian, Spells, CountCharacter, ToByte;
    ByteConverted(m.s.convBuf, m.s.convBuf[0], c, b);
  }

  lemma OneMoreByte(buf: seq<uint8>, data: seq<uint8>, k: nat)
    requires k < |buf| && k < |data| && buf[..k] == data[..k]
    ensures buf[k := data[k]][..k + 1] == data[..k + 1]
  {
    assert buf[k := data[k]][..k + 1] == buf[..k] + [data[k]];
    assert data[..k + 1] == data[..k] + [data[k]];
  }

  lemma SecondDigit(m: Machine, m0: Machine, r: Record, k: nat, c1: uint8, c2: uint8)
    requires r.InDomain() && k < |r.Data()| && AtHalf(m, m0, r, k, c1) && Spells([c1, c2], [r.Data()[k]])
    ensures var m' := Step(m, c2);
      if k + 1 < |r.Data()| then AtData(m', m0, r, k + 1) else AtCrc(m', m0, r)
  {
    hide BigEndian, SumOf, Spells, Step, StoreByte;
    StepInBounds(m, c2);
    var data := r.Data();
    ByteStored(m, data[k], c2);
    OneMoreByte(m.s.writeBuf, data, k);
    SumBound(r.AddressBytes());
    SumBound(data);
    if k + 1 == |data| {
      assert data[..k + 1] == data;
    }
  }

  lemma DataByte(m: Machine, m0: Machine, r: Record, digits: seq<uint8>, k: nat)
    requires r.InDomain() && Spells(digits, r.Data()) && k < |r.Data()| && AtData(m, m0, r, k)
    ensures var m' := RunChars(m, digits[2 * k..2 * k + 2]);
      if k + 1 < |r.Data()| then AtData(m', m0, r, k + 1) else AtCrc(m', m0, r)
  {
    hide Step, AtCrc;
    var c1, c2 := digits[2 * k], digits[2 * k + 1];
    assert digits[2 * k..2 * k + 2] == [c1] + [c2];
    FirstDigit(m, m0, r, k, c1);
    RunConcat(m, [c1], [c2]);
    RunOne(m, c1);
    RunOne(Step(m, c1), c2);
    assert ByteAt(digits, k) == r.Data()[k];
    SecondDigit(Step(m, c1), m0, r, k, c1, c2);
  }

  // ----- The end of a record -----

  /** What the machine has done once record r, begun in m0, is over. */
  ghost predicate Done(m: Machine, m0: Machine, r: Record, phase: Phase)
    requires r.InDomain()
  {
    && m.stopMsg && m.stopI2c
    && m.log == m0.log + r.Effects() && m.ram == Replay(m0.ram, r.Effects())
    && (if r.Leaves() then m.flow == Gone else m.flow == Running && InBounds(m.s) && m.s.phase == phase)
  }

  /** Before the checksum byte, the bytes of a record. */
  lemma SumOfBody(r: Record)
    requires r.Shaped()
    ensures SumOf(r.body) == r.body[0] as int + SumOf(r.AddressBytes()) + SumOf(r.Data()) + r.body[|r.body| - 1] as int
  {
    var b := r.body;
    var n := 1 + r.AddressLength();
    assert b[..|b| - 1] == b[..n] + r.Data();
    SumConcat(b[..n], r.Data());
    assert b[..n] == b[..1] + r.AddressBytes();
    SumConcat(b[..1], r.AddressBytes());
    assert b[..1][..0] == [];
  }

  /** The complemented sum equals the checksum byte exactly for sound records. */
  lemma ChecksumDecides(r: Record)
    requires r.Shaped()
    ensures var sum := r.body[0] as int + SumOf(r.AddressBytes()) + SumOf(r.Data());
      0xFF - sum % 0x100 == r.body[|r.body| - 1] as int <==> r.Sound()
  {
    SumOfBody(r);
  }

  lemma ConcludeDone(m: Machine, m0: Machine, r: Record)
    requires r.InDomain() && m == m0.(s := m.s, stopMsg := true, stopI2c := true) && m.flow == Running
    requires m.s.recordType == r.recordType && m.s.address == r.Address()
    requires m.s.writeIndex == |r.Data()| <= |m.s.writeBuf| && m.s.writeBuf[..m.s.writeIndex] == r.Data()
    requires (m.s.chkSum == m.s.crcVal as int) <==> r.Sound()
    ensures var m' := Conclude(m);
      && m'.stopMsg && m'.stopI2c && m'.s == m.s
      && m'.log == m0.log + r.Effects() && m'.ram == Replay(m0.ram, r.Effects())
      && m'.flow == if r.Leaves() then Gone else Running
  {
    hide Blit;
    var e := r.Effects();
    if |e| == 2 {
      ReplayOne(m0.ram, e[0]);
      ReplayOne(Replay(m0.ram, [e[0]]), e[1]);
      ReplayConcat(m0.ram, [e[0]], [e[1]]);
      assert [e[0]] + [e[1]] == e;
      assert m.log + [e[0]] + [e[1]] == m.log + e;
    } else {
      assert e == [e[0]];
      ReplayOne(m0.ram, e[0]);
    }
  }

  lemma CrcRead(m: Machine, m0: Machine, r: Record, c1: uint8, c2: uint8)
    requires r.InDomain() && AtCrc(m, m0, r) && Spells([c1, c2], [r.body[|r.body| - 1]])
    ensures Done(RunChars(m, [c1, c2]), m0, r, GetTermination)
  {
    hide Atoh, BigEndian, SumOf, Conclude, Spells, Replay;
    var m1 := Step(m, c1);
    StepInBounds(m, c1);
    StepInBounds(m1, c2);
    assert [c1, c2] == [c1] + [c2];
    RunConcat(m, [c1], [c2]);
    RunOne(m, c1);
    RunOne(m1, c2);
    ByteConverted(m1.s.convBuf, c1, c2, r.body[|r.body| - 1]);
    ChecksumDecides(r);
    var taken := m1.(s := TakeCrc(m1.s.(convBuf := m1.s.convBuf[1 := c2], fillIndex := 2)));
    assert r.Data()[..|r.Data()|] == r.Data();
    ConcludeDone(taken, m0, r);
  }

  lemma TerminatorRead(m: Machine, m0: Machine, r: Record, c: uint8)
    requires r.InDomain() && Done(m, m0, r, GetTermination)
    ensures Done(RunChars(m, [c]), m0, r, Idle)
  {
    if !r.Leaves() {
      StepInBounds(m, c);
      RunOne(m, c);
    }
  }

  /** An idle machine ignores everything but 'S'. */
  lemma {:induction false} NoiseIgnored(m: Machine, noise: seq<uint8>)
    requires Alive(m) && CHAR_S !in noise && (m.flow == Running ==> m.s.phase == Idle)
    ensures RunChars(m, noise) == m
    decreases |noise|
  {
    if noise != [] && m.flow == Running {
      assert noise[0] in noise;
      NoiseIgnored(m, noise[1..]);
    }
  }

  lemma SpellsSplit(text: seq<uint8>, bytes: seq<uint8>, k: nat)
    requires Spells(text, bytes) && k <= |bytes|
    ensures |text| == 2 * |bytes|
    ensures Spells(text[..2 * k], bytes[..k]) && Spells(text[2 * k..], bytes[k..])
  {
    var a, b := text[..2 * k], text[2 * k..];
    forall i | 0 <= i < k
      ensures ByteAt(a, i) == bytes[..k][i]
    {
      assert ByteAt(text, i) == bytes[i];
    }
    forall i | 0 <= i < |bytes| - k
      ensures ByteAt(b, i) == bytes[k..][i]
    {
      assert ByteAt(text, i + k) == bytes[i + k];
    }
  }

  /** The digits of a record, cut into those of its count, address, data and checksum. */
  lemma DigitsSplit(r: Record, digits: seq<uint8>)
    returns (count: seq<uint8>, address: seq<uint8>, data: seq<uint8>, crc: seq<uint8>)
    requires r.Shaped() && Spells(digits, r.body)
    ensures digits == count + (address + (data + crc))
    ensures Spells(count, r.body[..1]) && Spells(address, r.AddressBytes())
    ensures Spells(data, r.Data()) && Spells(crc, [r.body[|r.body| - 1]])
  {
    hide IsHexText, ByteAt, Spells;
    var b, n, d := r.body, r.AddressLength(), |r.Data()|;
    BodyParts(r);
    SpellsSplit(digits, b, 1);
    var rest := digits[2..];
    SpellsSplit(rest, b[1..], n);
    var last := rest[2 * n..];
    SpellsSplit(last, b[1 + n..], d);
    count, address, data, crc := digits[..2], rest[..2 * n], last[..2 * d], last[2 * d..];
    CutAt(digits, 2);
    CutAt(rest, 2 * n);
    CutAt(last, 2 * d);
  }

  lemma CutAt(s: seq<uint8>, k: nat)
    requires k <= |s|
    ensures s == s[..k] + s[k..]
  {
  }

  lemma BodyParts(r: Record)
    requires r.Shaped()
    ensures var b, n, d := r.body, r.AddressLength(), |r.Data()|;
      && 1 + n + d + 1 == |b|
      && b[1..][..n] == r.AddressBytes() && b[1..][n..] == b[1 + n..]
      && b[1 + n..][..d] == r.Data() && b[1 + n..][d..] == [b[|b| - 1]]
  {
  }

  /** From the 'S' of a record to its checksum. */
  lemma BodyRead(m: Machine, r: Record, count: seq<uint8>, address: seq<uint8>, data: seq<uint8>, crc: seq<uint8>)
    requires m.flow == Running && InBounds(m.s) && m.s.phase == Idle && r.InDomain()
    requires Spells(count, r.body[..1]) && Spells(address, r.AddressBytes()) && Spells(data, r.Data())
    requires Spells(crc, [r.body[|r.body| - 1]])
    ensures AtCrc(RunChars(RunChars(RunChars(RunChars(m, [CHAR_S, r.recordType]), count), address), data), m, r)
  {
    hide Step, AtCrc, AtData, AtAddress, Spells, InBounds;
    LengthOfDigits(r, address, data, crc);
    var m1 := RunChars(m, [CHAR_S, r.recordType]);
    var m2 := RunChars(m1, count);
    HeaderRead(m, r);
    CountRead(m1, m, r, count, address);
    AddressRead(m2, m, r, address, 0);
    assert address[0..] == address;
    if IsStart(r.recordType) {
      assert data == [];
    } else {
      DataRead(RunChars(m2, address), m, r, data, 0);
      assert data[2 * 0..] == data;
    }
  }

  /** One record, from its 'S' to the noise after it, has exactly the effects of
      the whole-record decoder, and leaves the machine idle unless it jumps. */
  lemma LineRead(m: Machine, line: Line)
    requires m.flow == Running && InBounds(m.s) && m.s.phase == Idle && line.WellFormed()
    ensures Done(RunChars(m, line.Text()), m, line.record, Idle)
  {
    hide Step, AtCrc, Spells, Done, InBounds, RunChars;
    var r := line.record;
    var count, address, data, crc := DigitsSplit(r, line.digits);
    LengthOfDigits(r, address, data, crc);
    var head := [CHAR_S, r.recordType];
    BodyRead(m, r, count, address, data, crc);
    var m4 := RunChars(RunChars(RunChars(RunChars(m, head), count), address), data);
    assert crc == [crc[0], crc[1]];
    CrcRead(m4, m, r, crc[0], crc[1]);
    var m5 := RunChars(m4, crc);
    TerminatorRead(m5, m, r, line.terminator);
    var m6 := RunChars(m5, [line.terminator]);
    DoneFlow(m6, m, r);
    NoiseIgnored(m6, line.noise);
    RunAll(m, head, count, address, data, crc, [line.terminator], line.noise);
    TextParts(head, count, address, data, crc, [line.terminator], line.noise);
  }

  lemma TextParts(a: seq<uint8>, b: seq<uint8>, c: seq<uint8>, d: seq<uint8>, e: seq<uint8>, f: seq<uint8>,
                  g: seq<uint8>)
    ensures a + (b + (c + (d + e))) + f + g == a + (b + (c + (d + (e + (f + g)))))
  {
  }

  lemma LengthOfDigits(r: Record, address: seq<uint8>, data: seq<uint8>, crc: seq<uint8>)
    requires r.InDomain()
    requires Spells(address, r.AddressBytes()) && Spells(data, r.Data()) && Spells(crc, [r.body[|r.body| - 1]])
    ensures 0 < |address| <= 8 && |data| == 2 * |r.Data()| && |crc| == 2
    ensures IsStart(r.recordType) <==> |r.Data()| == 0
  {
  }

  lemma RunAll(m: Machine, a: seq<uint8>, b: seq<uint8>, c: seq<uint8>, d: seq<uint8>, e: seq<uint8>, f: seq<uint8>,
               g: seq<uint8>)
    requires Alive(m)
    ensures RunChars(m, a + (b + (c + (d + (e + (f + g))))))
         == RunChars(RunChars(RunChars(RunChars(RunChars(RunChars(RunChars(m, a), b), c), d), e), f), g)
  {
    hide Step;
    var m1 := RunChars(m, a);
    var m2 := RunChars(m1, b);
    var m3 := RunChars(m2, c);
    var m4 := RunChars(m3, d);
    var m5 := RunChars(m4, e);
    RunConcat(m, a, b + (c + (d + (e + (f + g)))));
    RunConcat(m1, b, c + (d + (e + (f + g))));
    RunConcat(m2, c, d + (e + (f + g)));
    RunConcat(m3, d, e + (f + g));
    RunConcat(m4, e, f + g);
    RunConcat(m5, f, g);
  }

  // ----- Streams of records -----

  ghost predicate AllWellFormed(lines: seq<Line>) {
    forall i :: 0 <= i < |lines| ==> lines[i].WellFormed()
  }

  /** What the loader did about a list of records. */
  ghost predicate AllDone(m: Machine, m0: Machine, rs: seq<Record>)
    requires forall r :: r in rs ==> r.InDomain()
  {
    && m.log == m0.log + Decode(rs) && m.ram == Replay(m0.ram, Decode(rs))
    && (if SomeLeaves(rs) then m.flow == Gone else m.flow == Running && InBounds(m.s) && m.s.phase == Idle)
  }

  lemma GoneStays(m: Machine, cs: seq<uint8>)
    requires m.flow == Gone
    ensures RunChars(m, cs) == m
  {
  }

  /** The text of any list of records drives the machine through exactly the writes,
      answers and jump of the whole-record decoder, in order. */
  lemma {:induction false} StreamRead(m: Machine, lines: seq<Line>)
    requires m.flow == Running && InBounds(m.s) && m.s.phase == Idle && AllWellFormed(lines)
    ensures AllDone(RunChars(m, TextOf(lines)), m, Records(lines))
    decreases |lines|
  {
    hide Step, Replay, Done, AllDone;
    var rs := Records(lines);
    if lines == [] {
      NothingDone(m);
    } else {
      var line, rest := lines[0], lines[1..];
      assert rs[1..] == Records(rest);
      LineRead(m, line);
      var m1 := RunChars(m, line.Text());
      RunConcat(m, line.Text(), TextOf(rest));
      if rs[0].Leaves() {
        GoneStays(m1, TextOf(rest)) by {
          DoneFlow(m1, m, rs[0]);
        }
        LastDone(m1, m, rs);
      } else {
        DoneFlow(m1, m, rs[0]);
        StreamRead(m1, rest);
        FirstDone(RunChars(m1, TextOf(rest)), m1, m, rs);
      }
    }
  }

  lemma DoneFlow(m: Machine, m0: Machine, r: Record)
    requires r.InDomain() && Done(m, m0, r, Idle)
    ensures if r.Leaves() then m.flow == Gone else m.flow == Running && InBounds(m.s) && m.s.phase == Idle
  {
  }

  lemma NothingDone(m: Machine)
    requires m.flow == Running && InBounds(m.s) && m.s.phase == Idle
    ensures AllDone(m, m, [])
  {
    assert m.log + [] == m.log;
  }

  lemma LastDone(m: Machine, m0: Machine, rs: seq<Record>)
    requires rs != [] && (forall r :: r in rs ==> r.InDomain())
    requires rs[0].Leaves() && Done(m, m0, rs[0], Idle)
    ensures AllDone(m, m0, rs)
  {
  }

  lemma FirstDone(m: Machine, m1: Machine, m0: Machine, rs: seq<Record>)
    requires rs != [] && (forall r :: r in rs ==> r.InDomain())
    requires !rs[0].Leaves() && Done(m1, m0, rs[0], Idle) && AllDone(m, m1, rs[1..])
    ensures AllDone(m, m0, rs)
  {
    hide Replay, InBounds;
    ReplayConcat(m0.ram, rs[0].Effects(), Decode(rs[1..]));
    assert m0.log + (rs[0].Effects() + Decode(rs[1..])) == m0.log + rs[0].Effects() + Decode(rs[1..]);
    LaterLeaves(rs);
  }

  lemma LaterLeaves(rs: seq<Record>)
    requires rs != [] && (forall r :: r in rs ==> r.InDomain()) && !rs[0].Leaves()
    ensures SomeLeaves(rs) <==> SomeLeaves(rs[1..])
  {
    if SomeLeaves(rs) {
      var i :| 0 <= i < |rs| && rs[i].Leaves();
      assert rs[1..][i - 1].Leaves();
    }
  }

  /** The same with any number of empty polls among the characters. */
  lemma PollsRead(m: Machine, lines: seq<Line>, polls: seq<Option<uint8>>)
    requires m.flow == Running && InBounds(m.s) && m.s.phase == Idle && AllWellFormed(lines)
    requires Received(polls) == TextOf(lines)
    ensures AllDone(Run(m, polls), m, Records(lines))
  {
    EmptyPolls(m, polls);
    StreamRead(m, lines);
  }

  // ----- Consequences -----

  /** Every record has a spelling: each byte as dbg_hex8 would print it. */
  function Encode(bytes: seq<uint8>): (text: seq<uint8>)
    ensures |text| == 2 * |bytes| && IsHexText(text)
  {
    if bytes == [] then [] else HexDigits(bytes[0], 2) + Encode(bytes[1..])
  }

  lemma {:induction false} EncodeSpells(bytes: seq<uint8>)
    ensures Spells(Encode(bytes), bytes)
  {
    if bytes != [] {
      var text := Encode(bytes);
      EncodeSpells(bytes[1..]);
      HexPair(bytes[0]);
      forall i | 0 <= i < |bytes|
        ensures ByteAt(text, i) == bytes[i]
      {
        if i > 0 {
          assert ByteAt(Encode(bytes[1..]), i - 1) == bytes[1..][i - 1];
        }
      }
    }
  }

  lemma HexPair(b: uint8)
    ensures HexDigits(b, 2) == [HexChar(b / 16), HexChar(b % 16)]
  {
    hide HexChar, HexDigits;
    HexDigitsStep(b, 2);
    HexDigitsStep(b / 16, 1);
    assert b / 16 % 16 == b / 16;
    assert HexDigits(b / 16 / 16, 0) == [];
  }

  /** The checksum accumulator of a record never reaches 2^16. */
  lemma AccumulatorFits(r: Record)
    requires r.InDomain()
    ensures r.body[0] as int + SumOf(r.AddressBytes()) + SumOf(r.Data()) <= 0xFF * 0xFF < 0x1_0000
  {
    SumBound(r.AddressBytes());
    SumBound(r.Data());
  }

  lemma SumUpdate(a: seq<uint8>, j: nat, v: uint8)
    requires j < |a|
    ensures SumOf(a[j := v]) == SumOf(a) - a[j] as int + v as int
  {
    var b := a[j := v];
    var head, tail := a[..j], a[j + 1..];
    assert a == head + [a[j]] + tail && b == head + [v] + tail;
    SumConcat(head + [a[j]], tail);
    SumConcat(head + [v], tail);
    assert (head + [a[j]])[..j] == head && (head + [v])[..j] == head;
  }

  /** Changing one byte of a sound record, the count aside, makes the loader answer
      NOT OK, write nothing and jump nowhere, however the line is spelled. */
  lemma CorruptionRejected(m: Machine, r: Record, line: Line, j: nat, v: uint8)
    requires r.InDomain() && r.Sound()
    requires 1 <= j < |r.body| && v != r.body[j]
    requires line.record == Record(r.recordType, r.body[j := v])
    requires Spells(line.digits, line.record.body) && CHAR_S !in line.noise
    requires m.flow == Running && InBounds(m.s) && m.s.phase == Idle
    ensures var m' := RunChars(m, line.Text());
      && m'.log == m.log + [SaidNotOk] && m'.ram == m.ram
      && m'.flow == Running && m'.s.phase == Idle
  {
    hide Step, Spells;
    SumUpdate(r.body, j, v);
    assert !line.record.Sound();
    LineRead(m, line);
    ReplayOne(m.ram, SaidNotOk);
  }

  /** Departure from the S-record format: a sound data record is stored if and only if its
      address is not zero. The record for address zero is acknowledged all the same. */
  lemma StoredIff(m: Machine, line: Line)
    requires m.flow == Running && InBounds(m.s) && m.s.phase == Idle && line.WellFormed()
    requires IsStore(line.record.recordType) && line.record.Sound()
    ensures var m' := RunChars(m, line.Text()); var r := line.record;
      && m.log <= m'.log && SaidOk in m'.log[|m.log|..]
      && (Wrote(r.Address(), r.Data()) in m'.log[|m.log|..] <==> r.Address() != 0)
      && (r.Address() == 0 ==> m'.ram == m.ram)
  {
    hide RunChars, Replay, InBounds;
    LineRead(m, line);
    NothingReplayed(m.ram, [SaidOk]);
    assert (m.log + line.record.Effects())[|m.log|..] == line.record.Effects();
  }

  /** Nor does a sound termination record jump to address zero. */
  lemma JumpedIff(m: Machine, line: Line)
    requires m.flow == Running && InBounds(m.s) && m.s.phase == Idle && line.WellFormed()
    requires IsStart(line.record.recordType) && line.record.Sound()
    ensures var m' := RunChars(m, line.Text()); var r := line.record;
      && (m'.flow == Gone <==> r.Address() != 0)
      && m'.log == m.log + [if r.Address() != 0 then Jumped(r.Address()) else SaidOk]
      && m'.ram == m.ram
  {
    hide RunChars, Replay, InBounds;
    LineRead(m, line);
    NothingReplayed(m.ram, [SaidOk]);
    NothingReplayed(m.ram, [Jumped(line.record.Address())]);
  }

  /** Answers and jumps leave RAM alone. */
  lemma {:induction false} NothingReplayed(ram: Ram, events: seq<Event>)
    requires forall i :: 0 <= i < |events| ==> !events[i].Wrote?
    ensures Replay(ram, events) == ram
    decreases |events|
  {
    if events != [] {
      NothingReplayed(ram, events[1..]);
    }
  }

  /** S104 0000 55 A6: one byte for address zero, acknowledged and dropped. */
  lemma AddressZeroDropped(m: Machine, terminator: uint8)
    requires m.flow == Running && InBounds(m.s) && m.s.phase == Idle
    ensures var m' := RunChars(m, [CHAR_S, CHAR_0 + 1] + Encode([4, 0, 0, 0x55, 0xA6]) + [terminator]);
      m'.log == m.log + [SaidOk] && m'.ram == m.ram && m'.flow == Running && m'.s.phase == Idle
  {
    hide RunChars, InBounds, Encode;
    var r := Record(CHAR_0 + 1, [4, 0, 0, 0x55, 0xA6]);
    ZeroRecord(r);
    var line := Line(r, Encode(r.body), terminator, []);
    EncodeSpells(r.body);
    assert line.Text() == [CHAR_S, CHAR_0 + 1] + Encode(r.body) + [terminator];
    LineRead(m, line);
    NothingReplayed(m.ram, [SaidOk]);
  }

  lemma ZeroRecord(r: Record)
    requires r == Record(CHAR_0 + 1, [4, 0, 0, 0x55, 0xA6])
    ensures r.InDomain() && r.Sound() && r.Data() == [0x55] && r.Effects() == [SaidOk]
  {
    SumOfBody(r);
    assert r.AddressBytes() == [0, 0];
    assert [0x55][..0] == [] && [0, 0][..1] == [0] && [0][..0] == [];
    assert SumOf([0x55]) == 0x55;
    assert SumOf([0]) == 0;
    LeadingZeros([], 2);
    assert seq<uint8>(2, _ => 0) + [] == [0, 0];
  }
}

/** The register header generator of util/ioscript.py: a register table is compiled into a C
    struct with padding words and bit-fields, and into masks for two field operators. */
module RegLayout {
  import opened Words

  /** "31" or "+8": a most significant bit, or a width above the least significant one. */
  datatype Msb = At(bit: int) | Width(bits: int)

  datatype Row = RegisterRow(offset: int, name: string, count: nat) | FieldRow(name: string, msb: Msb, lsb: int)

  datatype Field = Field(name: string, msb: int, lsb: int) {
    function Width(): int {
      msb - lsb + 1
    }
  }

  datatype Register = Register(offset: int, name: string, count: nat, fields: seq<Field>)

  /** A bit-field of the struct; a gap has no name. */
  datatype BitMember = Gap(width: int) | BitField(name: string, width: int)

  /** A member of the struct: padding words, or a union of words and bit-fields. */
  datatype Member = Unused(words: int) | Reg(name: string, count: nat, bits: seq<BitMember>)

  // ----- The table -----

  function FieldOf(row: Row): Field
    requires row.FieldRow?
  {
    Field(row.name, if row.msb.At? then row.msb.bit else row.msb.bits + row.lsb - 1, row.lsb)
  }

  /** The registers of a table that starts with one. */
  function Registers(rows: seq<Row>): (regs: seq<Register>)
    requires rows != [] && rows[0].RegisterRow?
    ensures regs != []
  {
    var row := rows[|rows| - 1];
    if row.RegisterRow? then
      (if |rows| == 1 then [] else Registers(rows[..|rows| - 1])) + [Register(row.offset, row.name, row.count, [])]
    else
      var regs := Registers(rows[..|rows| - 1]);
      regs[..|regs| - 1] + [WithField(regs[|regs| - 1], FieldOf(row))]
  }

  function WithField(r: Register, f: Field): Register {
    r.(fields := r.fields + [f])
  }

  // ----- The struct -----

  /** The padding in front of a register: %d cuts the quotient towards zero. */
  function Padding(prev: int, offset: int): seq<Member> {
    if offset == prev + 4 then []
    else
      var gap := offset - prev - 4;
      [Unused(if gap >= 0 then gap / 4 else -(-gap / 4))]
  }

  /** The bit-fields for the first n fields, the last of them first, from bit pos on. */
  function BitMembers(fields: seq<Field>, n: nat, pos: int): seq<BitMember>
    requires n <= |fields|
  {
    if n == 0 then []
    else
      var f := fields[n - 1];
      (if f.lsb > pos then [Gap(f.lsb - pos)] else [])
      + [BitField(f.name, f.Width())] + BitMembers(fields, n - 1, f.msb + 1)
  }

  function StructBits(r: Register): seq<BitMember> {
    BitMembers(r.fields, |r.fields|, 0)
  }

  function MemberOf(r: Register): (m: Member)
    ensures m.Reg? && m.count == r.count
  {
    Reg(r.name, r.count, StructBits(r))
  }

  function Members(regs: seq<Register>, prev: int): seq<Member> {
    if regs == [] then []
    else Padding(prev, regs[0].offset) + [MemberOf(regs[0])] + Members(regs[1..], regs[0].offset)
  }

  function LastOffset(regs: seq<Register>, prev: int): int {
    if regs == [] then prev else regs[|regs| - 1].offset
  }

  lemma {:induction false} MembersSnoc(regs: seq<Register>, r: Register, prev: int)
    ensures Members(regs + [r], prev)
         == Members(regs, prev) + (Padding(LastOffset(regs, prev), r.offset) + [MemberOf(r)])
  {
    hide MemberOf, Padding;
    if regs == [] {
      assert regs + [r] == [r] && [r][1..] == [];
    } else {
      MembersSnoc(regs[1..], r, regs[0].offset);
      assert (regs + [r])[1..] == regs[1..] + [r];
    }
  }

  /** The loop that writes the bit-fields of a register. */
  method EmitFields(fields: seq<Field>) returns (bits: seq<BitMember>)
    ensures bits == BitMembers(fields, |fields|, 0)
  {
    hide BitMembers;
    bits := [];
    var msb, idx := 0, |fields|;
    NoFields(fields, 0);
    while idx > 0
      invariant 0 <= idx <= |fields|
      invariant bits + BitMembers(fields, idx, msb) == BitMembers(fields, |fields|, 0)
    {
      OneMoreField(fields, idx, msb, bits);
      idx := idx - 1;
      if fields[idx].lsb > msb {
        bits := bits + [Gap(fields[idx].lsb - msb)];
      }
      bits := bits + [BitField(fields[idx].name, fields[idx].msb - fields[idx].lsb + 1)];
      msb := fields[idx].msb + 1;
    }
    NoFields(fields, msb);
  }

  /** The next field, after its gap if there is one, moves over to what has been written. */
  lemma OneMoreField(fields: seq<Field>, n: nat, pos: int, bits: seq<BitMember>)
    requires 0 < n <= |fields|
    ensures var f := fields[n - 1];
      var gap := if f.lsb > pos then [Gap(f.lsb - pos)] else [];
      && bits + BitMembers(fields, n, pos)
         == bits + gap + [BitField(f.name, f.msb - f.lsb + 1)] + BitMembers(fields, n - 1, f.msb + 1)
      && (gap == [] ==> bits + gap == bits)
  {
  }

  /** Writes one register, after the padding in front of it. */
  method EmitRegister(prevOffset: int, r: Register) returns (members: seq<Member>)
    ensures members == Padding(prevOffset, r.offset) + [MemberOf(r)]
  {
    members := [];
    if r.offset != prevOffset + 4 {
      var gap := r.offset - prevOffset - 4;
      members := [Unused(if gap >= 0 then gap / 4 else -(-gap / 4))];
    }
    var bits := EmitFields(r.fields);
    members := members + [Reg(r.name, r.count, bits)];
  }

  /** The loop over the table: a register is written when the next one is read. */
  method EmitStruct(rows: seq<Row>) returns (members: seq<Member>)
    requires rows != [] && rows[0].RegisterRow?
    ensures members == Members(Registers(rows), -4)
  {
    hide Members, MemberOf, Padding, Registers;
    members := [];
    var regOffset, prevOffset := rows[0].offset, -4;
    var name, count, fields := rows[0].name, rows[0].count, [];
    FirstRegister(rows);
    for k := 1 to |rows|
      invariant var regs := Registers(rows[..k]);
        && regs[|regs| - 1] == Register(regOffset, name, count, fields)
        && prevOffset == LastOffset(regs[..|regs| - 1], -4)
        && members == Members(regs[..|regs| - 1], -4)
    {
      ghost var regs := Registers(rows[..k]);
      NextRegister(rows, k);
      match rows[k] {
        case RegisterRow(offset, newName, newCount) =>
          var text := EmitRegister(prevOffset, Register(regOffset, name, count, fields));
          MembersSnoc(regs[..|regs| - 1], regs[|regs| - 1], -4);
          assert regs[..|regs| - 1] + [regs[|regs| - 1]] == regs;
          members := members + text;
          name, count, fields := newName, newCount, [];
          prevOffset := regOffset;
          regOffset := offset;
        case FieldRow(_, _, _) =>
          fields := fields + [FieldOf(rows[k])];
      }
    }
    ghost var regs := Registers(rows);
    assert rows[..|rows|] == rows;
    var text := EmitRegister(prevOffset, Register(regOffset, name, count, fields));
    MembersSnoc(regs[..|regs| - 1], regs[|regs| - 1], -4);
    assert regs[..|regs| - 1] + [regs[|regs| - 1]] == regs;
    members := members + text;
  }

  lemma FirstRegister(rows: seq<Row>)
    requires rows != [] && rows[0].RegisterRow?
    ensures Registers(rows[..1]) == [Register(rows[0].offset, rows[0].name, rows[0].count, [])]
    ensures Members([], -4) == []
  {
    assert rows[..1] == [rows[0]];
  }

  lemma NextRegister(rows: seq<Row>, k: nat)
    requires rows != [] && rows[0].RegisterRow? && 0 < k < |rows|
    ensures var regs, next := Registers(rows[..k]), Registers(rows[..k + 1]);
      if rows[k].RegisterRow? then
        next == regs + [Register(rows[k].offset, rows[k].name, rows[k].count, [])]
      else
        next == regs[..|regs| - 1] + [WithField(regs[|regs| - 1], FieldOf(rows[k]))]
  {
    assert rows[..k + 1][..k] == rows[..k];
  }

  // ----- Where C puts the bit-fields -----

  /** A bit-field does not cross a 32-bit unit. */
  function Start(pos: int, width: int): int {
    if pos % 32 + width > 32 then pos + 32 - pos % 32 else pos
  }

  /** The first bit and the width of each named bit-field, from bit pos on. */
  function Places(bits: seq<BitMember>, pos: int): seq<(int, int)> {
    if bits == [] then []
    else
      var start := Start(pos, bits[0].width);
      (if bits[0].BitField? then [(start, bits[0].width)] else []) + Places(bits[1..], start + bits[0].width)
  }

  /** The first bit after the bit-fields. */
  function End(bits: seq<BitMember>, pos: int): int {
    if bits == [] then pos else End(bits[1..], Start(pos, bits[0].width) + bits[0].width)
  }

  /** Where the table wants the first n fields, the last of them first. */
  function Wanted(fields: seq<Field>, n: nat): (places: seq<(int, int)>)
    requires n <= |fields|
    ensures |places| == n
    ensures forall j :: 0 <= j < n ==> places[j] == (fields[n - 1 - j].lsb, fields[n - 1 - j].Width())
  {
    if n == 0 then [] else [(fields[n - 1].lsb, fields[n - 1].Width())] + Wanted(fields, n - 1)
  }

  predicate InWord(f: Field) {
    0 <= f.lsb <= f.msb < 32
  }

  /** Descending and disjoint. */
  predicate Descending(fields: seq<Field>) {
    forall i :: 0 < i < |fields| ==> fields[i - 1].lsb > fields[i].msb
  }

  /** One emitted field: from bit pos on, at its place exactly if that bit is not past it. */
  lemma FieldStep(fields: seq<Field>, n: nat, pos: int)
    requires 0 < n <= |fields| && InWord(fields[n - 1]) && 0 <= pos <= 32
    ensures var f := fields[n - 1];
      var places := Places(BitMembers(fields, n, pos), pos);
      var rest := BitMembers(fields, n - 1, f.msb + 1);
      && (f.lsb >= pos ==> places == [(f.lsb, f.Width())] + Places(rest, f.msb + 1))
      && (f.lsb >= pos ==> End(BitMembers(fields, n, pos), pos) == End(rest, f.msb + 1))
      && (f.lsb < pos ==> places != [] && places[0].0 >= pos)
  {
    var f := fields[n - 1];
    var bits, rest := BitMembers(fields, n, pos), BitMembers(fields, n - 1, f.msb + 1);
    if f.lsb > pos {
      assert bits[1..] == [BitField(f.name, f.Width())] + rest;
      assert bits[1..][1..] == rest;
    } else {
      assert bits[1..] == rest;
    }
  }

  lemma {:induction false} PlacedIff(fields: seq<Field>, n: nat, pos: int)
    requires n <= |fields| && 0 <= pos <= 32 && forall i :: 0 <= i < n ==> InWord(fields[i])
    ensures Places(BitMembers(fields, n, pos), pos) == Wanted(fields, n)
       <==> (n == 0 || fields[n - 1].lsb >= pos) && Descending(fields[..n])
    ensures (n == 0 || fields[n - 1].lsb >= pos) && Descending(fields[..n]) ==>
      End(BitMembers(fields, n, pos), pos) <= 32
  {
    hide BitMembers, Places, End, Descending;
    if n == 0 {
      NoBits(fields, pos);
    } else {
      var f := fields[n - 1];
      FieldStep(fields, n, pos);
      PlacedIff(fields, n - 1, f.msb + 1);
      OneMoreDescends(fields, n);
      if f.lsb >= pos {
        SameTail((f.lsb, f.Width()), Places(BitMembers(fields, n - 1, f.msb + 1), f.msb + 1), Wanted(fields, n - 1));
      }
    }
  }

  lemma SameTail<T>(x: T, a: seq<T>, b: seq<T>)
    ensures [x] + a == [x] + b <==> a == b
  {
    assert ([x] + a)[1..] == a && ([x] + b)[1..] == b;
  }

  lemma NoBits(fields: seq<Field>, pos: int)
    ensures Descending(fields[..0])
    ensures Places(BitMembers(fields, 0, pos), pos) == [] && End(BitMembers(fields, 0, pos), pos) == pos
  {
  }

  lemma OneMoreDescends(fields: seq<Field>, n: nat)
    requires 0 < n <= |fields|
    ensures Descending(fields[..n])
       <==> (n == 1 || fields[n - 2].lsb >= fields[n - 1].msb + 1) && Descending(fields[..n - 1])
  {
    var a, b := fields[..n], fields[..n - 1];
    if Descending(a) {
      forall i | 0 < i < |b|
        ensures b[i - 1].lsb > b[i].msb
      {
        assert a[i - 1].lsb > a[i].msb;
      }
      if n > 1 {
        assert a[n - 2].lsb > a[n - 1].msb;
      }
    }
    if (n == 1 || fields[n - 2].lsb >= fields[n - 1].msb + 1) && Descending(b) {
      forall i | 0 < i < |a|
        ensures a[i - 1].lsb > a[i].msb
      {
        if i < n - 1 {
          assert b[i - 1].lsb > b[i].msb;
        }
      }
    }
  }

  /** Every bit-field of a register is at its lsb with its width exactly if the table lists
      the fields in descending order without overlap. */
  lemma FieldsPlacedIff(r: Register)
    requires forall i :: 0 <= i < |r.fields| ==> InWord(r.fields[i])
    ensures Places(StructBits(r), 0) == Wanted(r.fields, |r.fields|) <==> Descending(r.fields)
    ensures Descending(r.fields) ==> End(StructBits(r), 0) <= 32
  {
    hide BitMembers, Places, End, Wanted, Descending;
    PlacedIff(r.fields, |r.fields|, 0);
    assert r.fields[..|r.fields|] == r.fields;
  }

  /** The fields of the filter register of the camera table, the last two at the same bits: the
      last is in its place, and the others end up eight bits above theirs. */
  lemma CameraFieldsMisplaced(r: Register)
    requires r.fields == [Field("R_COEFF", 23, 16), Field("G_COEFF", 15, 8), Field("B_COEFF", 15, 8)]
    ensures !Descending(r.fields)
    ensures Wanted(r.fields, |r.fields|) == [(8, 8), (8, 8), (16, 8)]
    ensures Places(StructBits(r), 0) == [(8, 8), (16, 8), (24, 8)]
  {
    var fields := r.fields;
    assert fields[1].lsb <= fields[2].msb;
    var red, green, blue := BitField("R_COEFF", 8), BitField("G_COEFF", 8), BitField("B_COEFF", 8);
    NoFields(fields, 24);
    assert BitMembers(fields, 1, 16) == [red];
    assert BitMembers(fields, 2, 16) == [green] + [red];
    assert StructBits(r) == [Gap(8), blue] + ([green] + [red]) == [Gap(8), blue, green, red];
    var bits := [Gap(8), blue, green, red];
    assert bits[1..] == [blue, green, red] && bits[1..][1..] == [green, red] && bits[1..][1..][1..] == [red];
    assert [red][1..] == [];
    assert Places([red], 24) == [(24, 8)];
    assert Places([green, red], 16) == [(16, 8)] + [(24, 8)];
    assert Places([blue, green, red], 8) == [(8, 8)] + ([(16, 8)] + [(24, 8)]);
  }

  lemma NoFields(fields: seq<Field>, pos: int)
    ensures BitMembers(fields, 0, pos) == [] && Places([], pos) == []
  {
  }

  /** The bits the first n fields take, gaps included, the last of them first: a field that starts
      past bit pos has a gap in front of it. */
  function BitsUsed(fields: seq<Field>, n: nat, pos: int): int
    requires n <= |fields|
  {
    if n == 0 then 0
    else
      var f := fields[n - 1];
      (if f.lsb > pos then f.lsb - pos else 0) + f.Width() + BitsUsed(fields, n - 1, f.msb + 1)
  }

  /** As long as they fit one unit, the bit-fields end where their widths add up to; beyond, they
      end beyond. */
  lemma {:induction false} EndFrom(fields: seq<Field>, n: nat, pos: int, at: int)
    requires n <= |fields| && 0 <= at && forall i :: 0 <= i < n ==> InWord(fields[i])
    ensures var end := End(BitMembers(fields, n, pos), at);
      && end >= at && BitsUsed(fields, n, pos) >= 0
      && (at + BitsUsed(fields, n, pos) <= 32 ==> end == at + BitsUsed(fields, n, pos))
      && (at + BitsUsed(fields, n, pos) > 32 ==> end > 32)
  {
    hide End, Start, BitMembers, BitsUsed;
    if n == 0 {
      NoFields(fields, pos);
      EndOfNone(at);
      NoneUsed(fields, pos);
    } else {
      var f := fields[n - 1];
      var at1 := AfterField(fields, n, pos, at);
      EndFrom(fields, n - 1, f.msb + 1, at1);
    }
  }

  lemma NoneUsed(fields: seq<Field>, pos: int)
    ensures BitsUsed(fields, 0, pos) == 0
  {
  }

  /** Where the bit-fields stand after the next field and its gap. */
  lemma AfterField(fields: seq<Field>, n: nat, pos: int, at: int) returns (at1: int)
    requires 0 < n <= |fields| && 0 <= at && InWord(fields[n - 1])
    ensures var f := fields[n - 1];
      var used := BitsUsed(fields, n, pos) - BitsUsed(fields, n - 1, f.msb + 1);
      && End(BitMembers(fields, n, pos), at) == End(BitMembers(fields, n - 1, f.msb + 1), at1)
      && used > 0 && at1 >= at + used && (at + used <= 32 ==> at1 == at + used)
  {
    hide End, Start;
    var f := fields[n - 1];
    var rest := BitMembers(fields, n - 1, f.msb + 1);
    var field := BitField(f.name, f.Width());
    at1 := at;
    if f.lsb > pos {
      var gap := Gap(f.lsb - pos);
      assert BitMembers(fields, n, pos) == [gap] + ([field] + rest);
      EndStep(gap, [field] + rest, at);
      StartIs(at, f.lsb - pos);
      at1 := Start(at, f.lsb - pos) + (f.lsb - pos);
    } else {
      assert BitMembers(fields, n, pos) == [field] + rest;
    }
    EndStep(field, rest, at1);
    StartIs(at1, f.Width());
    at1 := Start(at1, f.Width()) + f.Width();
  }

  /** What fits into the first unit stays where it is, and what does not ends beyond it. */
  lemma StartIs(pos: int, width: int)
    requires 0 <= pos && 0 < width
    ensures Start(pos, width) >= pos
    ensures pos + width <= 32 ==> Start(pos, width) == pos
  {
  }

  lemma EndOfNone(at: int)
    ensures End([], at) == at
  {
  }

  lemma EndStep(bit: BitMember, rest: seq<BitMember>, at: int)
    ensures End([bit] + rest, at) == End(rest, Start(at, bit.width) + bit.width)
  {
    assert ([bit] + rest)[1..] == rest;
  }

  // ----- Where C puts the registers -----

  /** The 32-bit units of a member: a union is as large as its larger side. */
  function Units(m: Member): int {
    match m
    case Unused(n) => n
    case Reg(_, count, bits) =>
      var units := (End(bits, 0) + 31) / 32;
      if units > count then units else count
  }

  /** The byte offsets of the registers, from byte at on. */
  function Offsets(members: seq<Member>, at: int): seq<int> {
    if members == [] then []
    else (if members[0].Reg? then [at] else []) + Offsets(members[1..], at + 4 * Units(members[0]))
  }

  function Listed(regs: seq<Register>): (offsets: seq<int>)
    ensures |offsets| == |regs|
    ensures forall i :: 0 <= i < |regs| ==> offsets[i] == regs[i].offset
  {
    seq(|regs|, i requires 0 <= i < |regs| => regs[i].offset)
  }

  /** Whole words, in increasing order. */
  predicate Increasing(regs: seq<Register>) {
    && (forall i :: 0 <= i < |regs| ==> regs[i].offset >= 0 && regs[i].offset % 4 == 0)
    && (forall i :: 0 < i < |regs| ==> regs[i - 1].offset < regs[i].offset)
  }

  /** At least one word, and fields inside a word. */
  predicate Proper(r: Register) {
    r.count >= 1 && forall i :: 0 <= i < |r.fields| ==> InWord(r.fields[i])
  }

  /** No array, and fields that take no more than a word. */
  predicate OneWord(r: Register) {
    r.count == 1 && BitsUsed(r.fields, |r.fields|, 0) <= 32
  }

  /** These registers take one word of the struct, and all others more. */
  lemma OneUnit(r: Register)
    requires Proper(r)
    ensures Units(MemberOf(r)) >= 1 && (Units(MemberOf(r)) == 1 <==> OneWord(r))
  {
    hide BitMembers, End, BitsUsed;
    EndFrom(r.fields, |r.fields|, 0, 0);
  }

  lemma RegisterStep(regs: seq<Register>, prev: int)
    requires regs != [] && prev % 4 == 0 && prev < regs[0].offset && regs[0].offset % 4 == 0
    ensures Offsets(Members(regs, prev), prev + 4)
         == [regs[0].offset]
            + Offsets(Members(regs[1..], regs[0].offset), regs[0].offset + 4 * Units(MemberOf(regs[0])))
  {
    hide MemberOf;
    var m, rest := MemberOf(regs[0]), Members(regs[1..], regs[0].offset);
    PaddingStep(prev, regs[0].offset, m, rest, prev + 4);
  }

  /** The padding in front of a register moves it by the gap in the table. */
  lemma PaddingStep(prev: int, offset: int, m: Member, rest: seq<Member>, at: int)
    requires m.Reg? && prev % 4 == 0 && offset % 4 == 0 && prev < offset
    ensures var start := at + (offset - prev - 4);
      Offsets(Padding(prev, offset) + [m] + rest, at) == [start] + Offsets(rest, start + 4 * Units(m))
  {
    var pad := Padding(prev, offset);
    var members := pad + [m] + rest;
    if pad == [] {
      assert members == [m] + rest && members[1..] == rest;
    } else {
      assert members[1..] == [m] + rest && members[1..][1..] == rest;
      assert 4 * ((offset - prev - 4) / 4) == offset - prev - 4;
    }
  }

  /** A register that starts late starts too late. */
  lemma LateRegister(regs: seq<Register>, prev: int, at: int)
    requires regs != [] && at > prev + 4 && prev % 4 == 0 && prev < regs[0].offset && regs[0].offset % 4 == 0
    ensures Offsets(Members(regs, prev), at) != [] && Offsets(Members(regs, prev), at)[0] > regs[0].offset
  {
    hide MemberOf;
    var m, rest := MemberOf(regs[0]), Members(regs[1..], regs[0].offset);
    PaddingStep(prev, regs[0].offset, m, rest, at);
  }

  lemma {:induction false} OffsetsFrom(regs: seq<Register>, prev: int)
    requires Increasing(regs) && prev % 4 == 0 && (regs != [] ==> prev < regs[0].offset)
    requires forall r :: r in regs ==> Proper(r)
    ensures Offsets(Members(regs, prev), prev + 4) == Listed(regs) <==> InnerOneWord(regs)
  {
    hide Members, Offsets, Units, MemberOf, Listed, InnerOneWord, OneWord, Proper, Increasing;
    if regs == [] {
      NoRegisters(prev, prev + 4);
    } else {
      var offset, rest := regs[0].offset, regs[1..];
      FirstIncreases(regs);
      RegisterStep(regs, prev);
      InnerStep(regs);
      ListedStep(regs);
      var units := Units(MemberOf(regs[0]));
      OneUnit(regs[0]);
      SameTail(offset, Offsets(Members(rest, offset), offset + 4 * units), Listed(rest));
      if rest == [] {
        NoRegisters(offset, offset + 4 * units);
      } else if units == 1 {
        OffsetsFrom(rest, offset);
      } else {
        assert regs[0] in regs;
        LateRegister(rest, offset, offset + 4 * units);
      }
    }
  }

  lemma FirstIncreases(regs: seq<Register>)
    requires regs != [] && Increasing(regs)
    ensures regs[0].offset % 4 == 0 && Increasing(regs[1..])
    ensures |regs| > 1 ==> regs[0].offset < regs[1].offset && regs[1].offset % 4 == 0
  {
  }

  lemma ListedStep(regs: seq<Register>)
    ensures regs == [] ==> Listed(regs) == []
    ensures regs != [] ==> Listed(regs) == [regs[0].offset] + Listed(regs[1..])
    ensures |regs| == 1 ==> Listed(regs[1..]) == []
    ensures |regs| > 1 ==> Listed(regs[1..]) != [] && Listed(regs[1..])[0] == regs[1].offset
  {
  }

  /** Every register but the last takes one word. */
  predicate InnerOneWord(regs: seq<Register>) {
    forall i :: 0 <= i < |regs| - 1 ==> OneWord(regs[i])
  }

  lemma InnerStep(regs: seq<Register>)
    requires regs != []
    ensures |regs| == 1 ==> InnerOneWord(regs)
    ensures |regs| > 1 ==> (InnerOneWord(regs) <==> OneWord(regs[0]) && InnerOneWord(regs[1..]))
  {
    hide OneWord;
    var rest := regs[1..];
    if |regs| > 1 && OneWord(regs[0]) && InnerOneWord(rest) {
      forall i | 0 <= i < |regs| - 1
        ensures OneWord(regs[i])
      {
        if i > 0 {
          assert OneWord(rest[i - 1]);
        }
      }
    }
    if |regs| > 1 && InnerOneWord(regs) {
      assert OneWord(regs[0]);
      forall i | 0 <= i < |rest| - 1
        ensures OneWord(rest[i])
      {
        assert OneWord(regs[i + 1]);
      }
    }
  }

  lemma NoRegisters(prev: int, at: int)
    ensures Offsets(Members([], prev), at) == Listed([]) == [] && InnerOneWord([])
  {
  }

  /** Every register is at the offset of the table exactly if every register but the last is a
      single word whose fields, with the gaps, take no more than 32 bits. */
  lemma OffsetsExactIff(regs: seq<Register>)
    requires Increasing(regs) && forall r :: r in regs ==> Proper(r)
    ensures Offsets(Members(regs, -4), 0) == Listed(regs) <==> InnerOneWord(regs)
  {
    hide Members, Offsets, MemberOf, InnerOneWord, Proper;
    OffsetsFrom(regs, -4);
  }

  /** A single register with well-placed fields takes one word. */
  lemma PlainRegister(r: Register)
    requires r.count == 1 && Descending(r.fields) && forall i :: 0 <= i < |r.fields| ==> InWord(r.fields[i])
    ensures OneWord(r)
  {
    hide BitMembers, Descending, End, BitsUsed;
    FieldsPlacedIff(r);
    EndFrom(r.fields, |r.fields|, 0, 0);
  }

  /** A whole table: increasing word offsets, descending disjoint fields, and no register
      array before the last register. */
  lemma TableLaidOut(rows: seq<Row>)
    requires rows != [] && rows[0].RegisterRow? && Increasing(Registers(rows))
    requires forall r :: r in Registers(rows) ==>
      Proper(r) && Descending(r.fields)
    requires forall i :: 0 <= i < |Registers(rows)| - 1 ==> Registers(rows)[i].count == 1
    ensures Offsets(Members(Registers(rows), -4), 0) == Listed(Registers(rows))
    ensures forall r :: r in Registers(rows) ==> Places(StructBits(r), 0) == Wanted(r.fields, |r.fields|)
  {
    hide Registers, Increasing, Members, MemberOf, Descending, Wanted, Places, Offsets, Listed, InWord, OneWord;
    var regs := Registers(rows);
    forall r | r in regs
      ensures Places(StructBits(r), 0) == Wanted(r.fields, |r.fields|)
    {
      FieldsPlacedIff(r);
    }
    forall i | 0 <= i < |regs| - 1
      ensures OneWord(regs[i])
    {
      assert regs[i] in regs;
      PlainRegister(regs[i]);
    }
    OffsetsExactIff(regs);
  }

  /** A register array pushes the register after it down by its further words. */
  lemma ArrayShiftsNext(a: Register, b: Register)
    requires 0 <= a.offset < b.offset && a.offset % 4 == b.offset % 4 == 0
    requires a.count >= 1 && a.fields == []
    ensures Offsets(Members([a, b], -4), 0) == [a.offset, b.offset + 4 * (a.count - 1)]
  {
    hide Units, MemberOf, Padding;
    assert [a, b][1..] == [b] && [b][1..] == [];
    NoFieldUnits(a);
    assert Members([b], a.offset) == Padding(a.offset, b.offset) + [MemberOf(b)] + [];
    PaddingStep(-4, a.offset, MemberOf(a), Members([b], a.offset), 0);
    PaddingStep(a.offset, b.offset, MemberOf(b), [], a.offset + 4 * a.count);
  }

  lemma NoFieldUnits(r: Register)
    requires r.fields == []
    ensures Units(MemberOf(r)) == r.count
  {
  }

  // ----- The field operators -----

  /** 0xFFFFFFFF >> (32 - width - 1), with width short of one. */
  function Mask(f: Field): (m: Word)
    requires InWord(f)
    ensures |m| == 32
  {
    Shr(Ones(32), 32 - (f.msb - f.lsb) - 1)
  }

  function RegfieldRead(reg: Word, mask: Word, lsb: nat): (w: Word)
    requires |reg| == |mask| == 32 && lsb <= 32
    ensures |w| == 32
  {
    And(Shr(reg, lsb), mask)
  }

  function RegfieldWrite(reg: Word, mask: Word, lsb: nat, value: Word): (w: Word)
    requires |reg| == |mask| == |value| == 32 && lsb <= 32
    ensures |w| == 32
  {
    Or(And(reg, Not(Shl(mask, lsb))), Shl(And(value, mask), lsb))
  }

  /** A bit-field access through the struct: the bits at the field's place. */
  function ReadPlace(reg: Word, place: (int, int)): (w: Word)
    requires |reg| == 32 && 0 <= place.0 && 0 <= place.1 && place.0 + place.1 <= 32
    ensures |w| == 32
  {
    reg[place.0..place.0 + place.1] + Zeros(32 - place.1)
  }

  lemma MaskBits(f: Field, p: nat)
    requires InWord(f) && p < 32
    ensures Mask(f)[p] == (p < f.Width())
  {
  }

  lemma {:induction false} ReadField(f: Field, reg: Word)
    requires InWord(f) && |reg| == 32
    ensures RegfieldRead(reg, Mask(f), f.lsb) == ReadPlace(reg, (f.lsb, f.Width()))
  {
    hide Mask;
    var a, b := RegfieldRead(reg, Mask(f), f.lsb), ReadPlace(reg, (f.lsb, f.Width()));
    forall p | 0 <= p < 32
      ensures a[p] == b[p]
    {
      MaskBits(f, p);
    }
  }

  /** A write puts the low bits of the value into the field and leaves every other bit. */
  lemma {:induction false} WriteField(f: Field, reg: Word, value: Word, p: nat)
    requires InWord(f) && |reg| == |value| == 32 && p < 32
    ensures RegfieldWrite(reg, Mask(f), f.lsb, value)[p]
         == if f.lsb <= p <= f.msb then value[p - f.lsb] else reg[p]
  {
    hide Mask;
    if p >= f.lsb {
      MaskBits(f, p - f.lsb);
    }
  }

  /** Through the layout of a register with descending disjoint fields, a bit-field reads what
      regfield_read reads; after a regfield_write the written field reads the low bits of
      the value, and every other bit-field what it read before. */
  lemma {:induction false} FieldOperators(r: Register, i: nat, j: nat, reg: Word, value: Word)
    requires (forall k :: 0 <= k < |r.fields| ==> InWord(r.fields[k])) && Descending(r.fields)
    requires i < |r.fields| && j < |r.fields| && |reg| == |value| == 32
    ensures var places := Places(StructBits(r), 0);
      var f, g := r.fields[i], r.fields[j];
      var reg' := RegfieldWrite(reg, Mask(f), f.lsb, value);
      && |places| == |r.fields|
      && places[|places| - 1 - j] == (g.lsb, g.Width())
      && RegfieldRead(reg, Mask(g), g.lsb) == ReadPlace(reg, places[|places| - 1 - j])
      && ReadPlace(reg', places[|places| - 1 - j])
         == if i == j then And(value, Mask(f)) else ReadPlace(reg, places[|places| - 1 - j])
  {
    hide MemberOf, Places, Mask, RegfieldRead, RegfieldWrite;
    FieldsPlacedIff(r);
    var f, g := r.fields[i], r.fields[j];
    var reg' := RegfieldWrite(reg, Mask(f), f.lsb, value);
    ReadField(g, reg);
    var place := (g.lsb, g.Width());
    if i != j {
      Separate(r.fields, i, j);
    }
    forall p | 0 <= p < 32
      ensures ReadPlace(reg', place)[p] == if i == j then And(value, Mask(f))[p] else ReadPlace(reg, place)[p]
    {
      MaskBits(f, p);
      if p < g.Width() {
        WriteField(f, reg, value, g.lsb + p);
      }
    }
    assert i == j ==> ReadPlace(reg', place) == And(value, Mask(f));
    assert i != j ==> ReadPlace(reg', place) == ReadPlace(reg, place);
  }

  lemma {:induction false} Separate(fields: seq<Field>, i: nat, j: nat)
    requires (forall k :: 0 <= k < |fields| ==> InWord(fields[k])) && Descending(fields)
    requires i < |fields| && j < |fields| && i != j
    ensures fields[i].msb < fields[j].lsb || fields[j].msb < fields[i].lsb
  {
    if i < j {
      Below(fields, i, j);
    } else {
      Below(fields, j, i);
    }
  }

  lemma {:induction false} Below(fields: seq<Field>, i: nat, j: nat)
    requires (forall k :: 0 <= k < |fields| ==> InWord(fields[k])) && Descending(fields)
    requires i < j < |fields|
    ensures fields[j].msb < fields[i].lsb
    decreases j
  {
    if i < j - 1 {
      Below(fields, i, j - 1);
      assert InWord(fields[j - 1]);
    }
    assert fields[j - 1].lsb > fields[j].msb;
  }
}

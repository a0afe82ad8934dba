/** What the struct that util/ioscript.py writes for a register table means, from the rows of the
    table to the places C gives the members. */
module RegMeaning {
  import opened RegLayout

  // ----- The rows -----

  /** The most significant bit that a row of a field names: "31" outright, "+8" from the lsb on. */
  function Last(row: Row): int
    requires row.FieldRow?
  {
    match row.msb
    case At(bit) => bit
    case Width(bits) => row.lsb + bits - 1
  }

  /** Row j describes a field of the register of row k. */
  predicate Owns(rows: seq<Row>, k: int, j: int) {
    && 0 <= k < j < |rows| && rows[k].RegisterRow?
    && forall h :: k < h <= j ==> rows[h].FieldRow?
  }

  /** Every field lies in its word, below the field that is listed before it. */
  predicate FieldsFit(rows: seq<Row>) {
    && (forall k :: 0 <= k < |rows| && rows[k].FieldRow? ==> 0 <= rows[k].lsb <= Last(rows[k]) < 32)
    && (forall k :: 0 < k < |rows| && rows[k].FieldRow? && rows[k - 1].FieldRow? ==>
          rows[k - 1].lsb > Last(rows[k]))
  }

  /** The registers are listed by increasing word offsets, and only the last may be an array. */
  predicate RegistersFit(rows: seq<Row>) {
    && (forall k :: 0 <= k < |rows| && rows[k].RegisterRow? ==>
          rows[k].offset >= 0 && rows[k].offset % 4 == 0 && rows[k].count >= 1)
    && (forall j, k :: 0 <= j < k < |rows| && rows[j].RegisterRow? && rows[k].RegisterRow? ==>
          rows[j].offset < rows[k].offset && rows[j].count == 1)
  }

  // ----- The struct -----

  /** A named bit-field: its first bit and its width. */
  datatype PlacedBits = PlacedBits(name: string, first: int, width: int)

  datatype PlacedReg = PlacedReg(offset: int, name: string, count: nat, bits: seq<PlacedBits>)

  /** The named bit-fields where C puts them, from bit pos on. */
  function BitLayout(bits: seq<BitMember>, pos: int): seq<PlacedBits> {
    if bits == [] then []
    else
      var start := Start(pos, bits[0].width);
      (if bits[0].BitField? then [PlacedBits(bits[0].name, start, bits[0].width)] else [])
      + BitLayout(bits[1..], start + bits[0].width)
  }

  /** The registers where C puts them, from byte at on. */
  function Layout(members: seq<Member>, at: int): seq<PlacedReg> {
    if members == [] then []
    else
      var m := members[0];
      (if m.Reg? then [PlacedReg(at, m.name, m.count, BitLayout(m.bits, 0))] else [])
      + Layout(members[1..], at + 4 * Units(m))
  }

  /** The register of row k stands in the struct; its fields are where the table wants them if they
      fit, and so is the register if all registers fit too. */
  ghost predicate Stands(layout: seq<PlacedReg>, rows: seq<Row>, k: int)
    requires 0 <= k < |rows| && rows[k].RegisterRow?
  {
    exists n :: 0 <= n < |layout| && IsRow(layout[n], rows, k)
  }

  ghost predicate IsRow(p: PlacedReg, rows: seq<Row>, k: int)
    requires 0 <= k < |rows| && rows[k].RegisterRow?
  {
    && p.name == rows[k].name && p.count == rows[k].count
    && (FieldsFit(rows) ==> BitsAreRows(p.bits, rows, k))
    && (FieldsFit(rows) && RegistersFit(rows) ==> p.offset == rows[k].offset)
  }

  /** Each field of the register is at its lsb with its width, and there is no other. */
  ghost predicate BitsAreRows(bits: seq<PlacedBits>, rows: seq<Row>, k: int)
  {
    && (forall j :: Owns(rows, k, j) ==> RowBits(rows[j]) in bits)
    && (forall b :: b in bits ==> exists j :: Owns(rows, k, j) && b == RowBits(rows[j]))
  }

  /** "m:l" is m - l + 1 bits from l on, and "+w:l" is w bits from l on. */
  function RowBits(row: Row): PlacedBits
    requires row.FieldRow?
  {
    match row.msb
    case At(bit) => PlacedBits(row.name, row.lsb, bit - row.lsb + 1)
    case Width(bits) => PlacedBits(row.name, row.lsb, bits)
  }

  // ----- From rows to registers -----

  /** The row that register n of the table comes from. */
  function Heads(rows: seq<Row>): (ks: seq<nat>)
    ensures forall n :: 0 <= n < |ks| ==> ks[n] < |rows| && rows[ks[n]].RegisterRow?
  {
    if rows == [] then []
    else
      var init := Heads(rows[..|rows| - 1]);
      if rows[|rows| - 1].RegisterRow? then init + [|rows| - 1] else init
  }

  /** One past the last field row of register n. */
  function Until(rows: seq<Row>, n: nat): nat {
    if n + 1 < |Heads(rows)| then Heads(rows)[n + 1] else |rows|
  }

  ghost predicate RegisterIs(r: Register, rows: seq<Row>, k: nat, end: nat) {
    && k < end <= |rows| && rows[k].RegisterRow?
    && r.offset == rows[k].offset && r.name == rows[k].name && r.count == rows[k].count
    && |r.fields| == end - k - 1
    && forall i :: 0 <= i < |r.fields| ==> FieldIs(r.fields[i], rows[k + 1 + i])
  }

  predicate FieldIs(f: Field, row: Row) {
    row.FieldRow? && f == Field(row.name, Last(row), row.lsb)
  }

  /** Every register of the table is the one its row and the field rows after it describe. */
  ghost predicate AllRows(regs: seq<Register>, rows: seq<Row>) {
    && |regs| == |Heads(rows)|
    && forall n :: 0 <= n < |regs| ==> RegisterIs(regs[n], rows, Heads(rows)[n], Until(rows, n))
  }

  lemma {:induction false} RegistersAre(rows: seq<Row>)
    requires rows != [] && rows[0].RegisterRow?
    ensures AllRows(Registers(rows), rows)
  {
    var init, row := rows[..|rows| - 1], rows[|rows| - 1];
    if |rows| == 1 {
      assert Heads(init) == [];
    } else {
      RegistersAre(init);
      var regs := Registers(init);
      hide Registers, RegisterIs, Heads, FieldOf;
      assert rows == init + [row];
      if row.RegisterRow? {
        MoreRegisters(init, row, regs);
        OneMoreRow(init, row);
      } else {
        MoreFields(init, row, regs);
        OneMoreRow(init, row);
      }
    }
  }

  lemma OneMoreRow(init: seq<Row>, row: Row)
    requires init != [] && init[0].RegisterRow?
    ensures var rows, regs := init + [row], Registers(init);
      Registers(rows) == if row.RegisterRow? then regs + [Register(row.offset, row.name, row.count, [])]
                         else regs[..|regs| - 1] + [WithField(regs[|regs| - 1], FieldOf(row))]
  {
    assert (init + [row])[..|init + [row]| - 1] == init;
  }

  lemma HeadsStep(init: seq<Row>, row: Row)
    ensures Heads(init + [row]) == if row.RegisterRow? then Heads(init) + [|init|] else Heads(init)
  {
    assert (init + [row])[..|init + [row]| - 1] == init;
  }

  lemma RegisterStays(r: Register, init: seq<Row>, row: Row, k: nat, end: nat)
    requires RegisterIs(r, init, k, end)
    ensures RegisterIs(r, init + [row], k, end)
  {
    hide FieldIs;
  }

  lemma MoreRegisters(init: seq<Row>, row: Row, regs: seq<Register>)
    requires row.RegisterRow? && AllRows(regs, init)
    ensures AllRows(regs + [Register(row.offset, row.name, row.count, [])], init + [row])
  {
    var r := Register(row.offset, row.name, row.count, []);
    var rows := init + [row];
    assert RegisterIs(r, rows, |init|, |rows|);
    hide RegisterIs, Heads;
    HeadsStep(init, row);
    forall n | 0 <= n < |regs| + 1
      ensures RegisterIs((regs + [r])[n], rows, Heads(rows)[n], Until(rows, n))
    {
      if n < |regs| {
        RegisterStays(regs[n], init, row, Heads(init)[n], Until(init, n));
        assert Until(rows, n) == Until(init, n);
      }
    }
  }

  lemma MoreFields(init: seq<Row>, row: Row, regs: seq<Register>)
    requires row.FieldRow? && AllRows(regs, init) && regs != []
    ensures AllRows(regs[..|regs| - 1] + [WithField(regs[|regs| - 1], FieldOf(row))], init + [row])
  {
    var last := |regs| - 1;
    var r := WithField(regs[last], FieldOf(row));
    var rows := init + [row];
    hide Heads, RegisterIs, FieldOf, WithField;
    HeadsStep(init, row);
    assert RegisterIs(r, rows, Heads(rows)[last], |rows|) by {
      FieldAdded(regs[last], init, row, Heads(init)[last]);
    }
    forall n | 0 <= n < last
      ensures RegisterIs(regs[n], rows, Heads(rows)[n], Until(rows, n))
    {
      RegisterStays(regs[n], init, row, Heads(init)[n], Until(init, n));
    }
  }

  lemma FieldAdded(r: Register, init: seq<Row>, row: Row, k: nat)
    requires row.FieldRow? && RegisterIs(r, init, k, |init|)
    ensures RegisterIs(WithField(r, FieldOf(row)), init + [row], k, |init| + 1)
  {
    var fields := r.fields + [FieldOf(row)];
    forall i | 0 <= i < |fields|
      ensures FieldIs(fields[i], (init + [row])[k + 1 + i])
    {
    }
  }

  /** The heads stand in order, and none is left out. */
  lemma {:induction false} HeadsInOrder(rows: seq<Row>)
    ensures forall m, n :: 0 <= m < n < |Heads(rows)| ==> Heads(rows)[m] < Heads(rows)[n]
    ensures forall k :: 0 <= k < |rows| && rows[k].RegisterRow? ==> k in Heads(rows)
  {
    if rows != [] {
      HeadsInOrder(rows[..|rows| - 1]);
    }
  }

  /** The rows up to the next head are the field rows of a register. */
  lemma OwnedUntil(rows: seq<Row>, r: Register, n: nat, j: int)
    requires n < |Heads(rows)| && RegisterIs(r, rows, Heads(rows)[n], Until(rows, n))
    ensures Owns(rows, Heads(rows)[n], j) <==> Heads(rows)[n] < j < Until(rows, n)
  {
    hide Heads;
    var k, end := Heads(rows)[n], Until(rows, n);
    if k < j < end {
      forall h | k < h <= j
        ensures rows[h].FieldRow?
      {
        assert FieldIs(r.fields[h - k - 1], rows[k + 1 + (h - k - 1)]);
      }
    }
  }

  lemma FieldsDescend(rows: seq<Row>, r: Register, k: nat, end: nat)
    requires FieldsFit(rows) && RegisterIs(r, rows, k, end)
    ensures Descending(r.fields) && forall i :: 0 <= i < |r.fields| ==> InWord(r.fields[i])
  {
    forall i | 0 <= i < |r.fields|
      ensures InWord(r.fields[i]) && (i > 0 ==> r.fields[i - 1].lsb > r.fields[i].msb)
    {
      assert FieldIs(r.fields[i], rows[k + 1 + i]);
      if i > 0 {
        assert FieldIs(r.fields[i - 1], rows[k + 1 + (i - 1)]);
        assert rows[k + i].lsb > Last(rows[k + i + 1]);
      }
    }
  }

  // ----- From registers to places -----

  /** The place of bit-field i. */
  predicate BitIs(b: PlacedBits, f: Field, place: (int, int)) {
    b == PlacedBits(f.name, place.0, place.1)
  }

  /** A field, after its gap if there is one, and what C does with them. */
  lemma FieldLayout(fields: seq<Field>, n: nat, pos: int, at: int) returns (start: int)
    requires 0 < n <= |fields|
    ensures var f := fields[n - 1];
      var bits, rest := BitMembers(fields, n, pos), BitMembers(fields, n - 1, f.msb + 1);
      && BitLayout(bits, at) == [PlacedBits(f.name, start, f.Width())] + BitLayout(rest, start + f.Width())
      && Places(bits, at) == [(start, f.Width())] + Places(rest, start + f.Width())
  {
    hide Start;
    var f := fields[n - 1];
    var bits, rest := BitMembers(fields, n, pos), BitMembers(fields, n - 1, f.msb + 1);
    var field := BitField(f.name, f.Width());
    assert ([field] + rest)[1..] == rest;
    if f.lsb > pos {
      assert bits == [Gap(f.lsb - pos)] + ([field] + rest);
      assert bits[1..] == [field] + rest;
      start := Start(Start(at, f.lsb - pos) + (f.lsb - pos), f.Width());
    } else {
      assert bits == [field] + rest;
      start := Start(at, f.Width());
    }
  }

  lemma {:induction false} BitLayoutIs(fields: seq<Field>, n: nat, pos: int, at: int)
    requires n <= |fields|
    ensures var bits := BitMembers(fields, n, pos);
      && |BitLayout(bits, at)| == |Places(bits, at)| == n
      && forall i :: 0 <= i < n ==> BitIs(BitLayout(bits, at)[i], fields[n - 1 - i], Places(bits, at)[i])
  {
    hide BitLayout, Places, BitMembers;
    if n > 0 {
      var f := fields[n - 1];
      var start := FieldLayout(fields, n, pos, at);
      BitLayoutIs(fields, n - 1, f.msb + 1, start + f.Width());
    } else {
      NoBitLayout(fields, pos, at);
    }
  }

  lemma NoBitLayout(fields: seq<Field>, pos: int, at: int)
    ensures BitLayout(BitMembers(fields, 0, pos), at) == [] && Places(BitMembers(fields, 0, pos), at) == []
  {
  }

  predicate PlacedIs(p: PlacedReg, r: Register, offset: int) {
    p == PlacedReg(offset, r.name, r.count, BitLayout(StructBits(r), 0))
  }

  /** A register, after its padding if there is any. */
  lemma RegisterLayout(regs: seq<Register>, prev: int, at: int) returns (start: int, next: int)
    requires regs != []
    ensures var members, rest := Members(regs, prev), Members(regs[1..], regs[0].offset);
      && Layout(members, at)
         == [PlacedReg(start, regs[0].name, regs[0].count, BitLayout(StructBits(regs[0]), 0))] + Layout(rest, next)
      && Offsets(members, at) == [start] + Offsets(rest, next)
  {
    hide StructBits, Units, BitLayout, Layout, Offsets;
    var r := regs[0];
    var pad, m, rest := Padding(prev, r.offset), MemberOf(r), Members(regs[1..], r.offset);
    assert pad == [] || (|pad| == 1 && pad[0].Unused?);
    assert m == Reg(r.name, r.count, StructBits(r));
    hide MemberOf, Padding;
    start := if pad == [] then at else at + 4 * Units(pad[0]);
    next := start + 4 * Units(m);
    FirstMember(m, rest, start);
    assert Members(regs, prev) == pad + ([m] + rest);
    if pad != [] {
      assert pad == [pad[0]];
      FirstMember(pad[0], [m] + rest, at);
    } else {
      assert pad + ([m] + rest) == [m] + rest;
    }
  }

  lemma FirstMember(m: Member, rest: seq<Member>, at: int)
    ensures Layout([m] + rest, at)
         == (if m.Reg? then [PlacedReg(at, m.name, m.count, BitLayout(m.bits, 0))] else [])
            + Layout(rest, at + 4 * Units(m))
    ensures Offsets([m] + rest, at) == (if m.Reg? then [at] else []) + Offsets(rest, at + 4 * Units(m))
  {
    assert ([m] + rest)[1..] == rest;
  }

  lemma {:induction false} LayoutIs(regs: seq<Register>, prev: int, at: int)
    ensures var members := Members(regs, prev);
      && |Layout(members, at)| == |Offsets(members, at)| == |regs|
      && forall n :: 0 <= n < |regs| ==> PlacedIs(Layout(members, at)[n], regs[n], Offsets(members, at)[n])
  {
    hide StructBits, BitLayout, Layout, Offsets, Members;
    if regs != [] {
      var start, next := RegisterLayout(regs, prev, at);
      LayoutIs(regs[1..], regs[0].offset, next);
    } else {
      NoLayout(prev, at);
    }
  }

  lemma NoLayout(prev: int, at: int)
    ensures Layout(Members([], prev), at) == [] && Offsets(Members([], prev), at) == []
  {
  }

  /** The bit-fields of a register whose fields fit, last one first. */
  lemma BitsInOrder(rows: seq<Row>, r: Register, k: nat, end: nat)
    requires FieldsFit(rows) && RegisterIs(r, rows, k, end)
    ensures end <= |rows| && |BitLayout(StructBits(r), 0)| == end - k - 1
    ensures forall j :: k < j < end ==>
      rows[j].FieldRow? && BitLayout(StructBits(r), 0)[end - 1 - j] == RowBits(rows[j])
  {
    hide BitLayout, Places, BitMembers, FieldsFit, Descending;
    var bits, places, size := BitLayout(StructBits(r), 0), Places(StructBits(r), 0), |r.fields|;
    FieldsDescend(rows, r, k, end);
    FieldsPlacedIff(r);
    BitLayoutIs(r.fields, size, 0, 0);
    forall j | k < j < end
      ensures rows[j].FieldRow? && bits[end - 1 - j] == RowBits(rows[j])
    {
      var f := r.fields[j - k - 1];
      assert FieldIs(f, rows[k + 1 + (j - k - 1)]);
      assert BitIs(bits[end - 1 - j], f, places[end - 1 - j]);
    }
  }

  lemma BitsOfRegister(rows: seq<Row>, r: Register, n: nat)
    requires FieldsFit(rows) && n < |Heads(rows)| && RegisterIs(r, rows, Heads(rows)[n], Until(rows, n))
    ensures BitsAreRows(BitLayout(StructBits(r), 0), rows, Heads(rows)[n])
  {
    hide Heads, Until, BitLayout, StructBits, FieldsFit, Owns, RegisterIs, RowBits;
    var k, end, bits := Heads(rows)[n], Until(rows, n), BitLayout(StructBits(r), 0);
    BitsInOrder(rows, r, k, end);
    forall j
      ensures Owns(rows, k, j) <==> k < j < end
    {
      OwnedUntil(rows, r, n, j);
    }
    forall b | b in bits
      ensures exists j :: 0 <= j < |rows| && rows[j].FieldRow? && Owns(rows, k, j) && b == RowBits(rows[j])
    {
      var i :| 0 <= i < |bits| && bits[i] == b;
      assert Owns(rows, k, end - 1 - i);
    }
  }

  lemma RegistersIncrease(rows: seq<Row>)
    requires rows != [] && rows[0].RegisterRow? && FieldsFit(rows) && RegistersFit(rows)
    ensures var regs := Registers(rows);
      && Increasing(regs)
      && (forall r :: r in regs ==> Proper(r) && Descending(r.fields))
      && (forall i :: 0 <= i < |regs| - 1 ==> regs[i].count == 1)
  {
    hide Registers, Heads, FieldsFit, Descending, InWord;
    var regs, heads := Registers(rows), Heads(rows);
    RegistersAre(rows);
    HeadsInOrder(rows);
    forall n | 0 <= n < |regs|
      ensures regs[n].offset == rows[heads[n]].offset && regs[n].count == rows[heads[n]].count
      ensures Proper(regs[n]) && Descending(regs[n].fields)
    {
      FieldsDescend(rows, regs[n], heads[n], Until(rows, n));
    }
  }

  // ----- The program -----

  /** The struct of a table. */
  method EmitTable(rows: seq<Row>) returns (members: seq<Member>)
    requires rows != [] && rows[0].RegisterRow?
    ensures forall k :: 0 <= k < |rows| && rows[k].RegisterRow? ==> Stands(Layout(members, 0), rows, k)
    ensures forall p :: p in Layout(members, 0) ==>
      exists k :: 0 <= k < |rows| && rows[k].RegisterRow? && IsRow(p, rows, k)
  {
    members := EmitStruct(rows);
    StructStands(rows);
  }

  lemma StructStands(rows: seq<Row>)
    requires rows != [] && rows[0].RegisterRow?
    ensures var layout := Layout(Members(Registers(rows), -4), 0);
      && (forall k :: 0 <= k < |rows| && rows[k].RegisterRow? ==> Stands(layout, rows, k))
      && (forall p :: p in layout ==> exists k :: 0 <= k < |rows| && rows[k].RegisterRow? && IsRow(p, rows, k))
  {
    hide Registers, Heads, Layout, Members, IsRow;
    var regs, heads := Registers(rows), Heads(rows);
    var layout := Layout(Members(regs, -4), 0);
    RegistersAre(rows);
    HeadsInOrder(rows);
    LayoutIs(regs, -4, 0);
    forall n | 0 <= n < |layout|
      ensures IsRow(layout[n], rows, heads[n])
    {
      RegisterStands(rows, n);
    }
    forall k | 0 <= k < |rows| && rows[k].RegisterRow?
      ensures Stands(layout, rows, k)
    {
      var n :| 0 <= n < |heads| && heads[n] == k;
      assert IsRow(layout[n], rows, k);
    }
  }

  lemma RegisterStands(rows: seq<Row>, n: nat)
    requires rows != [] && rows[0].RegisterRow? && n < |Heads(rows)|
    ensures var layout := Layout(Members(Registers(rows), -4), 0);
      n < |layout| && IsRow(layout[n], rows, Heads(rows)[n])
  {
    hide Registers, Heads, Layout, Members, BitLayout, FieldsFit, RegistersFit, Offsets;
    var regs := Registers(rows);
    RegistersAre(rows);
    LayoutIs(regs, -4, 0);
    if FieldsFit(rows) {
      BitsOfRegister(rows, regs[n], n);
      if RegistersFit(rows) {
        RegistersIncrease(rows);
        TableLaidOut(rows);
      }
    }
  }
}

/** The pad multiplexer generator of util/ioscript.py: a pin table is compiled into chains
    of ternary expressions in Verilog. Names are numbers here, and the text is tokens. */
module PadMux {
  import opened Options

  datatype PortDirection = Input | Output | Bidir

  datatype SysDirection = SysInput | SysOutput | Snoop

  /** The sysio column of a pin. */
  datatype SysName = NoSys | Sys(direction: SysDirection) | UnknownSys

  /** One option column. Open is an empty cell or a 'z'; Misplaced is a sysio name, which is
      an error here. */
  datatype Entry =
    | Apbio(num: nat)
    | Fpgaio(num: nat)
    | Perio(num: nat, direction: PortDirection)
    | One
    | Zero
    | Open
    | Misplaced

  /** A row of the pin table. */
  datatype Pin = Pin(xilinx: string, io: nat, sys: SysName, entries: seq<Entry>)

  /** The signals that a pin can feed. */
  datatype Signal = ApbioIn(num: nat) | FpgaioIn(num: nat) | PerioIn(num: nat)

  /** What stands in a mux table or a chain. */
  datatype Term =
    | Bit(value: bool)
    | IoIn(num: nat)
    | ApbioOut(num: nat) | ApbioOe(num: nat)
    | FpgaioOut(num: nat) | FpgaioOe(num: nat)
    | PerioOut(num: nat) | PerioOe(num: nat)

  type Cell = Option<Term>
  type Table = seq<seq<Cell>>

  // ----- What a table entry means -----

  function SignalOf(e: Entry): Option<Signal> {
    match e
    case Apbio(n) => Some(ApbioIn(n))
    case Fpgaio(n) => Some(FpgaioIn(n))
    case Perio(n, _) => Some(PerioIn(n))
    case _ => None
  }

  function OutTerm(e: Entry): Term
    requires e != Misplaced
  {
    match e
    case Apbio(n) => ApbioOut(n)
    case Fpgaio(n) => FpgaioOut(n)
    case Perio(n, d) => if d == Output || d == Bidir then PerioOut(n) else Bit(false)
    case One => Bit(true)
    case _ => Bit(false)
  }

  function OeTerm(e: Entry): Term
    requires e != Misplaced
  {
    match e
    case Apbio(n) => ApbioOe(n)
    case Fpgaio(n) => FpgaioOe(n)
    case Perio(n, d) => if d == Bidir then PerioOe(n) else Bit(d == Output)
    case One | Zero => Bit(true)
    case _ => Bit(false)
  }

  // ----- The tables as functions of the pin list -----

  predicate Sets(p: Pin, io: nat, sel: nat) {
    p.io == io && sel < |p.entries| && p.entries[sel] != Misplaced
  }

  predicate Feeds(p: Pin, signal: Signal, sel: nat) {
    sel < |p.entries| && SignalOf(p.entries[sel]) == Some(signal)
  }

  /** The entry a pin has at sel: the last row that sets it. */
  function EntryAt(pins: seq<Pin>, io: nat, sel: nat): (e: Option<Entry>)
    ensures e.Some? ==> e.value != Misplaced
  {
    if pins == [] then None
    else
      var p := pins[|pins| - 1];
      if Sets(p, io, sel) then Some(p.entries[sel]) else EntryAt(pins[..|pins| - 1], io, sel)
  }

  /** The pin a signal has at sel: the last row that names the pair. */
  function PinAt(pins: seq<Pin>, signal: Signal, sel: nat): Option<nat> {
    if pins == [] then None
    else
      var p := pins[|pins| - 1];
      if Feeds(p, signal, sel) then Some(p.io) else PinAt(pins[..|pins| - 1], signal, sel)
  }

  function SysAt(pins: seq<Pin>, io: nat): Option<SysDirection> {
    if pins == [] then None
    else
      var p := pins[|pins| - 1];
      if p.io == io && p.sys.Sys? then Some(p.sys.direction) else SysAt(pins[..|pins| - 1], io)
  }

  function OutCell(pins: seq<Pin>, io: nat, sel: nat): Cell {
    var e := EntryAt(pins, io, sel);
    if e.None? then None else Some(OutTerm(e.value))
  }

  function OeCell(pins: seq<Pin>, io: nat, sel: nat): Cell {
    var e := EntryAt(pins, io, sel);
    if e.None? then None else Some(OeTerm(e.value))
  }

  function InCell(pins: seq<Pin>, signal: Signal, sel: nat): Cell {
    var p := PinAt(pins, signal, sel);
    if p.None? then None else Some(IoIn(p.value))
  }

  // ----- Filling the tables -----

  predicate Shaped(t: Table, rows: nat, cols: nat) {
    |t| == rows && forall i :: 0 <= i < rows ==> |t[i]| == cols
  }

  function Put(t: Table, i: nat, j: nat, c: Cell): (t': Table)
    requires i < |t| && j < |t[i]|
    ensures forall rows, cols :: Shaped(t, rows, cols) ==> Shaped(t', rows, cols)
    ensures |t'| == |t| && forall r :: 0 <= r < |t| ==> |t'[r]| == |t[r]|
    ensures forall r, k :: 0 <= r < |t| && 0 <= k < |t[r]| ==>
      t'[r][k] == if r == i && k == j then c else t[r][k]
  {
    t[i := t[i][j := c]]
  }

  function Blank(rows: nat, cols: nat): (t: Table)
    ensures Shaped(t, rows, cols)
    ensures forall r, k :: 0 <= r < rows && 0 <= k < cols ==> t[r][k] == None
  {
    seq(rows, _ => seq(cols, _ => None))
  }

  datatype Sizes = Sizes(io: nat, apbio: nat, fpgaio: nat, perio: nat, sel: nat)

  predicate EntryFits(e: Entry, z: Sizes) {
    && (e.Apbio? ==> e.num < z.apbio)
    && (e.Fpgaio? ==> e.num < z.fpgaio)
    && (e.Perio? ==> e.num < z.perio)
  }

  /** Every number names a row and every column a select value: otherwise the generator
      stops with an exception. */
  predicate PinFits(p: Pin, z: Sizes) {
    && p.io < z.io && |p.entries| <= z.sel
    && forall j :: 0 <= j < |p.entries| ==> EntryFits(p.entries[j], z)
  }

  /** The errors counted in the pin table. */
  function Errors(pins: seq<Pin>): nat {
    if pins == [] then 0
    else
      var p := pins[|pins| - 1];
      Errors(pins[..|pins| - 1]) + HeadErrors(pins[..|pins| - 1], p) + Misplacements(p.entries)
  }

  /** The errors in the name columns of a pin. */
  function HeadErrors(earlier: seq<Pin>, p: Pin): nat {
    (if RepeatsName(earlier, p) then 1 else 0) + if p.sys.UnknownSys? then 1 else 0
  }

  /** The Xilinx pin was taken by an earlier row. An empty name counts as taken, since the list of
      names starts out filled with empty ones. */
  predicate RepeatsName(earlier: seq<Pin>, p: Pin) {
    p.xilinx == "" || exists j :: 0 <= j < |earlier| && earlier[j].xilinx == p.xilinx
  }

  function Misplacements(entries: seq<Entry>): nat {
    if entries == [] then 0
    else Misplacements(entries[..|entries| - 1]) + if entries[|entries| - 1] == Misplaced then 1 else 0
  }

  /** The first j columns of a pin. */
  function Part(p: Pin, j: nat): Pin
    requires j <= |p.entries|
  {
    p.(entries := p.entries[..j])
  }

  predicate IsOut(t: Table, pins: seq<Pin>, z: Sizes)
    requires Shaped(t, z.io, z.sel)
  {
    forall io, sel :: 0 <= io < z.io && 0 <= sel < z.sel ==> t[io][sel] == OutCell(pins, io, sel)
  }

  predicate IsOe(t: Table, pins: seq<Pin>, z: Sizes)
    requires Shaped(t, z.io, z.sel)
  {
    forall io, sel :: 0 <= io < z.io && 0 <= sel < z.sel ==> t[io][sel] == OeCell(pins, io, sel)
  }

  predicate IsApbio(t: Table, pins: seq<Pin>, z: Sizes)
    requires Shaped(t, z.apbio, z.sel)
  {
    forall n, sel :: 0 <= n < z.apbio && 0 <= sel < z.sel ==> t[n][sel] == InCell(pins, ApbioIn(n), sel)
  }

  predicate IsFpgaio(t: Table, pins: seq<Pin>, z: Sizes)
    requires Shaped(t, z.fpgaio, z.sel)
  {
    forall n, sel :: 0 <= n < z.fpgaio && 0 <= sel < z.sel ==> t[n][sel] == InCell(pins, FpgaioIn(n), sel)
  }

  predicate IsPerio(t: Table, pins: seq<Pin>, z: Sizes)
    requires Shaped(t, z.perio, z.sel)
  {
    forall n, sel :: 0 <= n < z.perio && 0 <= sel < z.sel ==> t[n][sel] == InCell(pins, PerioIn(n), sel)
  }

  /** The five tables hold what these rows say. */
  predicate Tabled(out: Table, oe: Table, perio: Table, apbio: Table, fpgaio: Table, pins: seq<Pin>, z: Sizes) {
    && Shaped(out, z.io, z.sel) && Shaped(oe, z.io, z.sel) && Shaped(perio, z.perio, z.sel)
    && Shaped(apbio, z.apbio, z.sel) && Shaped(fpgaio, z.fpgaio, z.sel)
    && IsOut(out, pins, z) && IsOe(oe, pins, z)
    && IsPerio(perio, pins, z) && IsApbio(apbio, pins, z) && IsFpgaio(fpgaio, pins, z)
  }

  // One more column of a pin changes the cells at that column only.

  lemma EntryColumn(pins: seq<Pin>, p: Pin, j: nat, io: nat, sel: nat)
    requires j < |p.entries|
    ensures EntryAt(pins + [Part(p, j + 1)], io, sel)
         == if io == p.io && sel == j && p.entries[j] != Misplaced then Some(p.entries[j])
            else EntryAt(pins + [Part(p, j)], io, sel)
  {
    var a, b := pins + [Part(p, j)], pins + [Part(p, j + 1)];
    assert a[..|a| - 1] == pins && b[..|b| - 1] == pins;
    assert a[|a| - 1] == Part(p, j) && b[|b| - 1] == Part(p, j + 1);
  }

  lemma PinColumn(pins: seq<Pin>, p: Pin, j: nat, signal: Signal, sel: nat)
    requires j < |p.entries|
    ensures PinAt(pins + [Part(p, j + 1)], signal, sel)
         == if sel == j && SignalOf(p.entries[j]) == Some(signal) then Some(p.io)
            else PinAt(pins + [Part(p, j)], signal, sel)
  {
    var a, b := pins + [Part(p, j)], pins + [Part(p, j + 1)];
    assert a[..|a| - 1] == pins && b[..|b| - 1] == pins;
    assert a[|a| - 1] == Part(p, j) && b[|b| - 1] == Part(p, j + 1);
  }

  lemma NoColumns(pins: seq<Pin>, p: Pin)
    ensures forall io, sel :: EntryAt(pins + [Part(p, 0)], io, sel) == EntryAt(pins, io, sel)
    ensures forall signal, sel :: PinAt(pins + [Part(p, 0)], signal, sel) == PinAt(pins, signal, sel)
  {
    var a := pins + [Part(p, 0)];
    assert a[..|a| - 1] == pins && a[|a| - 1] == Part(p, 0);
  }

  lemma NothingRead(out: Table, oe: Table, perio: Table, apbio: Table, fpgaio: Table, pins: seq<Pin>, p: Pin,
                    z: Sizes)
    requires Tabled(out, oe, perio, apbio, fpgaio, pins, z)
    ensures Tabled(out, oe, perio, apbio, fpgaio, pins + [Part(p, 0)], z)
  {
    hide EntryAt, PinAt;
    NoColumns(pins, p);
  }

  function NewOut(t: Table, p: Pin, j: nat, z: Sizes): Table
    requires Shaped(t, z.io, z.sel) && PinFits(p, z) && j < |p.entries|
  {
    if p.entries[j] == Misplaced then t else Put(t, p.io, j, Some(OutTerm(p.entries[j])))
  }

  function NewOe(t: Table, p: Pin, j: nat, z: Sizes): Table
    requires Shaped(t, z.io, z.sel) && PinFits(p, z) && j < |p.entries|
  {
    if p.entries[j] == Misplaced then t else Put(t, p.io, j, Some(OeTerm(p.entries[j])))
  }

  function NewApbio(t: Table, p: Pin, j: nat, z: Sizes): Table
    requires Shaped(t, z.apbio, z.sel) && PinFits(p, z) && j < |p.entries|
  {
    assert EntryFits(p.entries[j], z);
    if p.entries[j].Apbio? then Put(t, p.entries[j].num, j, Some(IoIn(p.io))) else t
  }

  function NewFpgaio(t: Table, p: Pin, j: nat, z: Sizes): Table
    requires Shaped(t, z.fpgaio, z.sel) && PinFits(p, z) && j < |p.entries|
  {
    assert EntryFits(p.entries[j], z);
    if p.entries[j].Fpgaio? then Put(t, p.entries[j].num, j, Some(IoIn(p.io))) else t
  }

  function NewPerio(t: Table, p: Pin, j: nat, z: Sizes): Table
    requires Shaped(t, z.perio, z.sel) && PinFits(p, z) && j < |p.entries|
  {
    assert EntryFits(p.entries[j], z);
    if p.entries[j].Perio? then Put(t, p.entries[j].num, j, Some(IoIn(p.io))) else t
  }

  lemma OutputsColumn(out: Table, oe: Table, pins: seq<Pin>, p: Pin, j: nat, z: Sizes)
    requires Shaped(out, z.io, z.sel) && Shaped(oe, z.io, z.sel) && PinFits(p, z) && j < |p.entries|
    requires IsOut(out, pins + [Part(p, j)], z) && IsOe(oe, pins + [Part(p, j)], z)
    ensures IsOut(NewOut(out, p, j, z), pins + [Part(p, j + 1)], z)
    ensures IsOe(NewOe(oe, p, j, z), pins + [Part(p, j + 1)], z)
  {
    hide EntryAt, OutTerm, OeTerm, Put, Part;
    forall io, sel | 0 <= io < z.io && 0 <= sel < z.sel
      ensures NewOut(out, p, j, z)[io][sel] == OutCell(pins + [Part(p, j + 1)], io, sel)
      ensures NewOe(oe, p, j, z)[io][sel] == OeCell(pins + [Part(p, j + 1)], io, sel)
    {
      EntryColumn(pins, p, j, io, sel);
    }
  }

  lemma ApbioColumn(t: Table, pins: seq<Pin>, p: Pin, j: nat, z: Sizes)
    requires Shaped(t, z.apbio, z.sel) && PinFits(p, z) && j < |p.entries|
    requires IsApbio(t, pins + [Part(p, j)], z)
    ensures IsApbio(NewApbio(t, p, j, z), pins + [Part(p, j + 1)], z)
  {
    hide PinAt, Put, Part;
    forall n, sel | 0 <= n < z.apbio && 0 <= sel < z.sel
      ensures NewApbio(t, p, j, z)[n][sel] == InCell(pins + [Part(p, j + 1)], ApbioIn(n), sel)
    {
      PinColumn(pins, p, j, ApbioIn(n), sel);
    }
  }

  lemma FpgaioColumn(t: Table, pins: seq<Pin>, p: Pin, j: nat, z: Sizes)
    requires Shaped(t, z.fpgaio, z.sel) && PinFits(p, z) && j < |p.entries|
    requires IsFpgaio(t, pins + [Part(p, j)], z)
    ensures IsFpgaio(NewFpgaio(t, p, j, z), pins + [Part(p, j + 1)], z)
  {
    hide PinAt, Put, Part;
    forall n, sel | 0 <= n < z.fpgaio && 0 <= sel < z.sel
      ensures NewFpgaio(t, p, j, z)[n][sel] == InCell(pins + [Part(p, j + 1)], FpgaioIn(n), sel)
    {
      PinColumn(pins, p, j, FpgaioIn(n), sel);
    }
  }

  lemma PerioColumn(t: Table, pins: seq<Pin>, p: Pin, j: nat, z: Sizes)
    requires Shaped(t, z.perio, z.sel) && PinFits(p, z) && j < |p.entries|
    requires IsPerio(t, pins + [Part(p, j)], z)
    ensures IsPerio(NewPerio(t, p, j, z), pins + [Part(p, j + 1)], z)
  {
    hide PinAt, Put, Part;
    forall n, sel | 0 <= n < z.perio && 0 <= sel < z.sel
      ensures NewPerio(t, p, j, z)[n][sel] == InCell(pins + [Part(p, j + 1)], PerioIn(n), sel)
    {
      PinColumn(pins, p, j, PerioIn(n), sel);
    }
  }

  lemma ColumnTabled(out: Table, oe: Table, perio: Table, apbio: Table, fpgaio: Table, pins: seq<Pin>, p: Pin,
                     j: nat, z: Sizes)
    requires PinFits(p, z) && j < |p.entries|
    requires Tabled(out, oe, perio, apbio, fpgaio, pins + [Part(p, j)], z)
    ensures Tabled(NewOut(out, p, j, z), NewOe(oe, p, j, z), NewPerio(perio, p, j, z), NewApbio(apbio, p, j, z),
                   NewFpgaio(fpgaio, p, j, z), pins + [Part(p, j + 1)], z)
  {
    hide PinFits, IsOut, IsOe, IsPerio, IsApbio, IsFpgaio, Part;
    OutputsColumn(out, oe, pins, p, j, z);
    PerioColumn(perio, pins, p, j, z);
    ApbioColumn(apbio, pins, p, j, z);
    FpgaioColumn(fpgaio, pins, p, j, z);
  }

  class Generator {
    const z: Sizes
    var ioOut: Table
    var ioOe: Table
    var perioIn: Table
    var apbioIn: Table
    var fpgaioIn: Table
    var sysNames: seq<Option<SysDirection>>
    var xilinxNames: seq<string>
    var errors: nat

    predicate Holds(pins: seq<Pin>)
      reads this
    {
      Tabled(ioOut, ioOe, perioIn, apbioIn, fpgaioIn, pins, z)
    }

    predicate HoldsSys(pins: seq<Pin>)
      reads this
    {
      |sysNames| == z.io && forall io :: 0 <= io < z.io ==> sysNames[io] == SysAt(pins, io)
    }

    predicate HoldsXilinx(pins: seq<Pin>)
      reads this
    {
      && |pins| <= |xilinxNames| == z.io
      && forall k :: 0 <= k < z.io ==> xilinxNames[k] == if k < |pins| then pins[k].xilinx else ""
    }

    constructor (z: Sizes)
      ensures this.z == z && errors == 0 && Holds([]) && HoldsSys([]) && HoldsXilinx([])
    {
      this.z := z;
      ioOut, ioOe := Blank(z.io, z.sel), Blank(z.io, z.sel);
      perioIn, apbioIn, fpgaioIn := Blank(z.perio, z.sel), Blank(z.apbio, z.sel), Blank(z.fpgaio, z.sel);
      sysNames, xilinxNames := seq(z.io, _ => None), seq(z.io, _ => "");
      errors := 0;
    }

    /** The branches on one option column. */
    method PutEntry(ghost pins: seq<Pin>, p: Pin, sel: nat)
      requires PinFits(p, z) && sel < |p.entries| && Holds(pins + [Part(p, sel)])
      modifies this
      ensures sysNames == old(sysNames) && xilinxNames == old(xilinxNames)
      ensures errors == old(errors) + if p.entries[sel] == Misplaced then 1 else 0
      ensures Holds(pins + [Part(p, sel + 1)])
    {
      hide IsOut, IsOe, IsPerio, IsApbio, IsFpgaio, Part, Put;
      ColumnTabled(ioOut, ioOe, perioIn, apbioIn, fpgaioIn, pins, p, sel, z);
      var entry := p.entries[sel];
      assert EntryFits(entry, z);
      match entry {
        case Misplaced =>
          errors := errors + 1;
        case Apbio(n) =>
          ioOut := Put(ioOut, p.io, sel, Some(ApbioOut(n)));
          ioOe := Put(ioOe, p.io, sel, Some(ApbioOe(n)));
          apbioIn := Put(apbioIn, n, sel, Some(IoIn(p.io)));
        case Fpgaio(n) =>
          ioOut := Put(ioOut, p.io, sel, Some(FpgaioOut(n)));
          ioOe := Put(ioOe, p.io, sel, Some(FpgaioOe(n)));
          fpgaioIn := Put(fpgaioIn, n, sel, Some(IoIn(p.io)));
        case Perio(n, direction) =>
          ioOut := Put(ioOut, p.io, sel,
                       Some(if direction == Output || direction == Bidir then PerioOut(n) else Bit(false)));
          if direction == Bidir {
            ioOe := Put(ioOe, p.io, sel, Some(PerioOe(n)));
          } else if direction == Output {
            ioOe := Put(ioOe, p.io, sel, Some(Bit(true)));
          } else {
            ioOe := Put(ioOe, p.io, sel, Some(Bit(false)));
          }
          perioIn := Put(perioIn, n, sel, Some(IoIn(p.io)));
        case _ =>
          ioOut := Put(ioOut, p.io, sel, Some(Bit(entry == One)));
          ioOe := Put(ioOe, p.io, sel, Some(Bit(entry == One || entry == Zero)));
      }
    }

    /** The pin-table loop. There are no more rows than pads: otherwise the generator stops with
        an exception. */
    method ReadPinTable(pins: seq<Pin>)
      requires Holds([]) && HoldsSys([]) && HoldsXilinx([]) && errors == 0
      requires |pins| <= z.io && forall k :: 0 <= k < |pins| ==> PinFits(pins[k], z)
      modifies this
      ensures Holds(pins) && HoldsSys(pins) && HoldsXilinx(pins) && errors == Errors(pins)
    {
      hide Errors, Misplacements, SysAt, Holds, HoldsSys, HoldsXilinx, PinFits;
      NoErrors();
      for k := 0 to |pins|
        invariant Holds(pins[..k]) && HoldsSys(pins[..k]) && HoldsXilinx(pins[..k]) && errors == Errors(pins[..k])
      {
        assert pins[..k + 1] == pins[..k] + [pins[k]];
        ReadPin(k, pins[..k], pins[k]);
      }
      assert pins[..|pins|] == pins;
    }

    /** One row of the pin table. */
    method ReadPin(pinNum: nat, ghost pins: seq<Pin>, p: Pin)
      requires Holds(pins) && HoldsSys(pins) && HoldsXilinx(pins) && PinFits(p, z)
      requires pinNum == |pins| < z.io
      modifies this
      ensures Holds(pins + [p]) && HoldsSys(pins + [p]) && HoldsXilinx(pins + [p])
      ensures Errors(pins + [p]) - Errors(pins) == errors - old(errors)
    {
      hide EntryAt, PinAt, Errors, Shaped, SysAt, Tabled;
      MoreErrors(pins, p);
      NothingRead(ioOut, ioOe, perioIn, apbioIn, fpgaioIn, pins, p, z);
      ReadNames(pinNum, pins, p);
      for sel := 0 to |p.entries|
        invariant Holds(pins + [Part(p, sel)]) && HoldsSys(pins + [p]) && HoldsXilinx(pins + [p])
        invariant errors == old(errors) + HeadErrors(pins, p) + Misplacements(p.entries[..sel])
      {
        PutEntry(pins, p, sel);
        assert p.entries[..sel + 1][..sel] == p.entries[..sel];
      }
      assert p.entries[..|p.entries|] == p.entries;
    }

    /** The name columns of a row. */
    method ReadNames(pinNum: nat, ghost pins: seq<Pin>, p: Pin)
      requires HoldsSys(pins) && HoldsXilinx(pins) && p.io < z.io
      requires pinNum == |pins| < z.io
      modifies this`sysNames, this`xilinxNames, this`errors
      ensures HoldsSys(pins + [p]) && HoldsXilinx(pins + [p])
      ensures errors == old(errors) + HeadErrors(pins, p)
    {
      hide SysAt;
      MoreNames(pins, p);
      assert p.xilinx in xilinxNames <==> RepeatsName(pins, p) by {
        assert xilinxNames[pinNum] == "";
        assert forall j :: 0 <= j < |pins| ==> xilinxNames[j] == pins[j].xilinx;
      }
      if p.xilinx in xilinxNames {
        errors := errors + 1;
      }
      xilinxNames := xilinxNames[pinNum := p.xilinx];
      match p.sys {
        case NoSys =>
        case UnknownSys =>
          errors := errors + 1;
        case Sys(direction) =>
          sysNames := sysNames[p.io := Some(direction)];
      }
    }
  }

  function NewName(pins: seq<Pin>, p: Pin, io: nat): Option<SysDirection> {
    if p.io == io && p.sys.Sys? then Some(p.sys.direction) else SysAt(pins, io)
  }

  lemma MoreNames(pins: seq<Pin>, p: Pin)
    ensures forall io :: SysAt(pins + [p], io) == NewName(pins, p, io)
  {
    assert (pins + [p])[..|pins + [p]| - 1] == pins;
  }

  lemma NoErrors()
    ensures Errors([]) == 0
  {
  }

  lemma MoreErrors(pins: seq<Pin>, p: Pin)
    ensures Errors(pins + [p])
         == Errors(pins) + HeadErrors(pins, p) + Misplacements(p.entries)
  {
    assert (pins + [p])[..|pins + [p]| - 1] == pins;
  }

  // ----- Chains -----

  /** One way through a chain: taken when the pin's select is the column. */
  datatype Arm = Arm(io: nat, term: Term)

  datatype Expr = Leaf(term: Term) | Choice(io: nat, sel: nat, term: Term, rest: Expr)

  /** The emitted text: "((pad_mux_i[io] == sel) ? term :", a default, ")". */
  datatype Token = Test(io: nat, sel: nat, term: Term) | Default(term: Term) | Close

  /** The signals of the generated module. */
  datatype Wires = Wires(padMux: nat -> nat, ioIn: nat -> bool, apbioOut: nat -> bool, apbioOe: nat -> bool,
                         fpgaioOut: nat -> bool, fpgaioOe: nat -> bool, perioOut: nat -> bool, perioOe: nat -> bool)

  function Value(t: Term, w: Wires): bool {
    match t
    case Bit(b) => b
    case IoIn(n) => w.ioIn(n)
    case ApbioOut(n) => w.apbioOut(n)
    case ApbioOe(n) => w.apbioOe(n)
    case FpgaioOut(n) => w.fpgaioOut(n)
    case FpgaioOe(n) => w.fpgaioOe(n)
    case PerioOut(n) => w.perioOut(n)
    case PerioOe(n) => w.perioOe(n)
  }

  function Eval(e: Expr, w: Wires): bool {
    match e
    case Leaf(t) => Value(t, w)
    case Choice(io, sel, t, rest) => if w.padMux(io) == sel then Value(t, w) else Eval(rest, w)
  }

  /** How Verilog reads the text. */
  function Parse(text: seq<Token>): Option<(Expr, seq<Token>)>
    decreases |text|
  {
    if text == [] then None
    else
      match text[0]
      case Close => None
      case Default(t) => Some((Leaf(t), text[1..]))
      case Test(io, sel, t) =>
        var rest := Parse(text[1..]);
        if rest.Some? && rest.value.1 != [] && rest.value.1[0] == Close then
          Some((Choice(io, sel, t, rest.value.0), rest.value.1[1..]))
        else None
  }

  function Text(e: Expr): seq<Token> {
    match e
    case Leaf(t) => [Default(t)]
    case Choice(io, sel, t, rest) => [Test(io, sel, t)] + Text(rest) + [Close]
  }

  /** The arms in the order of the select values, then the default. */
  function Chain(row: seq<Option<Arm>>, sel: nat, default: Term): Expr
    requires sel <= |row|
    decreases |row| - sel
  {
    if sel == |row| then Leaf(default)
    else if row[sel].None? then Chain(row, sel + 1, default)
    else Choice(row[sel].value.io, sel, row[sel].value.term, Chain(row, sel + 1, default))
  }

  /** An input row tests the pin that each cell names. */
  function InputArms(row: seq<Cell>): (arms: seq<Option<Arm>>)
    ensures |arms| == |row|
  {
    seq(|row|, k requires 0 <= k < |row| =>
      if row[k].Some? && row[k].value.IoIn? then Some(Arm(row[k].value.num, row[k].value)) else None)
  }

  /** An output row tests its own pin. */
  function OutputArms(io: nat, row: seq<Cell>): (arms: seq<Option<Arm>>)
    ensures |arms| == |row|
  {
    seq(|row|, k requires 0 <= k < |row| => if row[k].None? then None else Some(Arm(io, row[k].value)))
  }

  /** The loop that writes one chain, then as many closing parentheses as it opened. */
  method EmitChain(row: seq<Option<Arm>>, default: Term) returns (text: seq<Token>)
    ensures text == Text(Chain(row, 0, default))
    ensures Parse(text) == Some((Chain(row, 0, default), []))
  {
    hide Chain, Text, Parse, Closing;
    text := [];
    var nparen := 0;
    NoneToClose();
    for sel := 0 to |row|
      invariant Text(Chain(row, 0, default)) == text + Text(Chain(row, sel, default)) + Closing(nparen)
    {
      ChainText(row, sel, default);
      CloseOneMore(nparen);
      if row[sel].Some? {
        var test := Test(row[sel].value.io, sel, row[sel].value.term);
        Regroup(text, test, Text(Chain(row, sel + 1, default)), Closing(nparen));
        text := text + [test];
        nparen := nparen + 1;
      }
    }
    ChainText(row, |row|, default);
    text := text + [Default(default)];
    for i := 0 to nparen
      invariant Text(Chain(row, 0, default)) == text + Closing(nparen - i)
    {
      CloseOneMore(nparen - i - 1);
      Associate(text, [Close], Closing(nparen - i - 1));
      text := text + [Close];
    }
    TextParses(Chain(row, 0, default), []);
    assert text + [] == text;
  }

  lemma ChainText(row: seq<Option<Arm>>, sel: nat, default: Term)
    requires sel <= |row|
    ensures sel == |row| ==> Text(Chain(row, sel, default)) == [Default(default)]
    ensures sel < |row| && row[sel].None? ==>
      Text(Chain(row, sel, default)) == Text(Chain(row, sel + 1, default))
    ensures sel < |row| && row[sel].Some? ==>
      Text(Chain(row, sel, default))
      == [Test(row[sel].value.io, sel, row[sel].value.term)] + Text(Chain(row, sel + 1, default)) + [Close]
  {
  }

  lemma Associate(a: seq<Token>, b: seq<Token>, c: seq<Token>)
    ensures a + (b + c) == (a + b) + c
  {
  }

  /** A test and its closing parenthesis, taken to the text before and the parentheses after. */
  lemma Regroup(before: seq<Token>, test: Token, rest: seq<Token>, closing: seq<Token>)
    ensures before + ([test] + rest + [Close]) + closing == (before + [test]) + rest + ([Close] + closing)
  {
  }

  lemma NoneToClose()
    ensures Closing(0) == []
  {
  }

  function Closing(n: nat): seq<Token> {
    if n == 0 then [] else [Close] + Closing(n - 1)
  }

  lemma {:induction false} CloseOneMore(n: nat)
    ensures [Close] + Closing(n) == Closing(n) + [Close] == Closing(n + 1)
  {
    if n > 0 {
      CloseOneMore(n - 1);
    }
  }

  lemma {:induction false} TextParses(e: Expr, tail: seq<Token>)
    ensures Parse(Text(e) + tail) == Some((e, tail))
  {
    if e.Choice? {
      TextParses(e.rest, [Close] + tail);
      assert (Text(e) + tail)[1..] == Text(e.rest) + ([Close] + tail);
      assert ([Close] + tail)[1..] == tail;
    } else {
      assert (Text(e) + tail)[1..] == tail;
    }
  }

  /** A chain has the value of the first arm whose pin selects its column. */
  predicate Hit(row: seq<Option<Arm>>, sel: nat, w: Wires) {
    sel < |row| && row[sel].Some? && w.padMux(row[sel].value.io) == sel
  }

  lemma {:induction false} ChainHit(row: seq<Option<Arm>>, from: nat, default: Term, w: Wires, sel: nat)
    requires from <= sel && Hit(row, sel, w) && forall k :: from <= k < sel ==> !Hit(row, k, w)
    ensures Eval(Chain(row, from, default), w) == Value(row[sel].value.term, w)
    decreases |row| - from
  {
    if from < sel {
      assert !Hit(row, from, w);
      ChainHit(row, from + 1, default, w, sel);
    }
  }

  lemma {:induction false} ChainMiss(row: seq<Option<Arm>>, from: nat, default: Term, w: Wires)
    requires from <= |row| && forall k :: from <= k ==> !Hit(row, k, w)
    ensures Eval(Chain(row, from, default), w) == Value(default, w)
    decreases |row| - from
  {
    if from < |row| {
      assert !Hit(row, from, w);
      ChainMiss(row, from + 1, default, w);
    }
  }

  // ----- Inputs -----

  /** The chain of an input signal, as the filled tables give it. */
  function InputChain(pins: seq<Pin>, signal: Signal, z: Sizes): Expr {
    Chain(InputArms(InputRow(pins, signal, z.sel)), 0, Bit(signal.PerioIn?))
  }

  function InputRow(pins: seq<Pin>, signal: Signal, cols: nat): (row: seq<Cell>)
    ensures |row| == cols
  {
    seq(cols, sel requires 0 <= sel < cols => InCell(pins, signal, sel))
  }

  /** Some row routes the signal to the pin at the select value that the pin has. */
  predicate Routed(pins: seq<Pin>, signal: Signal, w: Wires, io: nat) {
    exists k :: 0 <= k < |pins| && pins[k].io == io && Feeds(pins[k], signal, w.padMux(io))
  }

  /** No (signal, select value) pair stands on two pins. */
  ghost predicate PairsUnique(pins: seq<Pin>) {
    forall j, k :: 0 <= j < k < |pins| ==> NoCommonPair(pins[j], pins[k])
  }

  ghost predicate NoCommonPair(p: Pin, q: Pin) {
    p.io == q.io || forall signal, sel: nat :: !(Feeds(p, signal, sel) && Feeds(q, signal, sel))
  }

  lemma {:induction false} PinAtIsFed(pins: seq<Pin>, signal: Signal, sel: nat)
    ensures PinAt(pins, signal, sel).Some? <==> exists k :: 0 <= k < |pins| && Feeds(pins[k], signal, sel)
    ensures PinAt(pins, signal, sel).Some? ==>
      exists k :: 0 <= k < |pins| && Feeds(pins[k], signal, sel) && pins[k].io == PinAt(pins, signal, sel).value
  {
    if pins != [] {
      PinAtIsFed(pins[..|pins| - 1], signal, sel);
    }
  }

  lemma InputHit(pins: seq<Pin>, signal: Signal, z: Sizes, w: Wires, sel: nat)
    requires sel < z.sel
    ensures var row := InputArms(InputRow(pins, signal, z.sel));
      var p := PinAt(pins, signal, sel);
      && (Hit(row, sel, w) <==> p.Some? && w.padMux(p.value) == sel)
      && (p.Some? ==> row[sel] == Some(Arm(p.value, IoIn(p.value))))
  {
  }

  lemma HitIsRouted(pins: seq<Pin>, signal: Signal, z: Sizes, w: Wires, sel: nat)
    requires sel < z.sel
    ensures Hit(InputArms(InputRow(pins, signal, z.sel)), sel, w) ==>
      PinAt(pins, signal, sel).Some? && Routed(pins, signal, w, PinAt(pins, signal, sel).value)
  {
    hide InputArms, InputRow, PinAt, Hit;
    InputHit(pins, signal, z, w, sel);
    PinAtIsFed(pins, signal, sel);
  }

  /** Without a routed pin an input reads its default: high for peripherals, else low. */
  lemma InputDefault(pins: seq<Pin>, signal: Signal, z: Sizes, w: Wires)
    requires forall io: nat :: !Routed(pins, signal, w, io)
    ensures Eval(InputChain(pins, signal, z), w) == signal.PerioIn?
  {
    hide InputArms, InputRow, Chain, PinAt;
    var row := InputArms(InputRow(pins, signal, z.sel));
    forall sel: nat
      ensures !Hit(row, sel, w)
    {
      if sel < z.sel {
        HitIsRouted(pins, signal, z, w, sel);
      }
    }
    ChainMiss(row, 0, Bit(signal.PerioIn?), w);
  }

  /** Where no (signal, select) pair stands on two pins, an input reads the routed pin; of
      several routed pins, the one with the lowest select value. */
  lemma InputReadsPin(pins: seq<Pin>, signal: Signal, z: Sizes, w: Wires, io: nat)
    requires (forall k :: 0 <= k < |pins| ==> PinFits(pins[k], z)) && PairsUnique(pins)
    requires Routed(pins, signal, w, io)
    requires forall other: nat :: Routed(pins, signal, w, other) ==> w.padMux(io) <= w.padMux(other)
    ensures Eval(InputChain(pins, signal, z), w) == w.ioIn(io)
  {
    hide InputArms, InputRow, Chain, PinAt;
    PinAtIsFed(pins, signal, w.padMux(io));
    ReadsLowest(pins, signal, z, w, io);
  }

  /** Row k is the last one to name the signal at the select value. */
  predicate IsLastNaming(pins: seq<Pin>, signal: Signal, sel: nat, k: nat) {
    k < |pins| && Feeds(pins[k], signal, sel) && forall j :: k < j < |pins| ==> !Feeds(pins[j], signal, sel)
  }

  /** A row names the signal at the select value for this pin, and no later row names the same
      pair. */
  predicate NamedLast(pins: seq<Pin>, signal: Signal, sel: nat, io: nat) {
    exists k :: 0 <= k < |pins| && IsLastNaming(pins, signal, sel, k) && pins[k].io == io
  }

  lemma LastNamingStep(pins: seq<Pin>, signal: Signal, sel: nat, k: nat)
    requires pins != []
    ensures var n := |pins| - 1;
      && (Feeds(pins[n], signal, sel) ==> (IsLastNaming(pins, signal, sel, k) <==> k == n))
      && (!Feeds(pins[n], signal, sel) ==>
            (IsLastNaming(pins, signal, sel, k) <==> IsLastNaming(pins[..n], signal, sel, k)))
  {
    hide Feeds;
    var n := |pins| - 1;
    var init := pins[..n];
    if IsLastNaming(init, signal, sel, k) && !Feeds(pins[n], signal, sel) {
      assert forall j :: k < j < n ==> init[j] == pins[j];
    }
    if IsLastNaming(pins, signal, sel, k) && k < n {
      assert forall j :: k < j < n ==> init[j] == pins[j];
    }
  }

  /** The generator's cell holds the pin that is named last. */
  lemma {:induction false} PinAtIsNamedLast(pins: seq<Pin>, signal: Signal, sel: nat, io: nat)
    ensures PinAt(pins, signal, sel) == Some(io) <==> NamedLast(pins, signal, sel, io)
  {
    hide Feeds, IsLastNaming;
    if pins != [] {
      var n := |pins| - 1;
      var init := pins[..n];
      PinAtIsNamedLast(init, signal, sel, io);
      LastNamingStep(pins, signal, sel, n);
      forall k: nat
        ensures Feeds(pins[n], signal, sel) ==> (IsLastNaming(pins, signal, sel, k) <==> k == n)
        ensures !Feeds(pins[n], signal, sel) ==>
          (IsLastNaming(pins, signal, sel, k) <==> IsLastNaming(init, signal, sel, k))
      {
        LastNamingStep(pins, signal, sel, k);
      }
      if !Feeds(pins[n], signal, sel) {
        assert !IsLastNaming(init, signal, sel, n) by { TooLate(init, signal, sel, n); }
      }
    }
  }

  lemma TooLate(pins: seq<Pin>, signal: Signal, sel: nat, k: nat)
    requires k >= |pins|
    ensures !IsLastNaming(pins, signal, sel, k)
  {
  }

  /** The pin's own select value picks the signal for it, and no other pin is named later. */
  predicate Selected(pins: seq<Pin>, signal: Signal, w: Wires, io: nat) {
    NamedLast(pins, signal, w.padMux(io), io)
  }

  /** A hit in the row of an input belongs to a selected pin. */
  lemma HitIsSelected(pins: seq<Pin>, signal: Signal, z: Sizes, w: Wires, sel: nat)
    requires sel < z.sel && Hit(InputArms(InputRow(pins, signal, z.sel)), sel, w)
    ensures PinAt(pins, signal, sel).Some?
    ensures var io := PinAt(pins, signal, sel).value; w.padMux(io) == sel && Selected(pins, signal, w, io)
  {
    hide InputArms, InputRow, PinAt, Hit, NamedLast;
    InputHit(pins, signal, z, w, sel);
    PinAtIsNamedLast(pins, signal, sel, PinAt(pins, signal, sel).value);
  }

  /** What an input reads, for any table and any pad setting: of the selected pins the one with
      the lowest select value. */
  lemma InputReadsSelected(pins: seq<Pin>, signal: Signal, z: Sizes, w: Wires, io: nat)
    requires forall k :: 0 <= k < |pins| ==> PinFits(pins[k], z)
    requires Selected(pins, signal, w, io)
    requires forall other: nat :: Selected(pins, signal, w, other) ==> w.padMux(io) <= w.padMux(other)
    ensures Eval(InputChain(pins, signal, z), w) == w.ioIn(io)
  {
    hide InputArms, InputRow, Chain, PinAt, Hit;
    var row, sel := InputArms(InputRow(pins, signal, z.sel)), w.padMux(io);
    var k :| 0 <= k < |pins| && IsLastNaming(pins, signal, sel, k) && pins[k].io == io;
    assert PinFits(pins[k], z);
    PinAtIsNamedLast(pins, signal, sel, io);
    InputHit(pins, signal, z, w, sel);
    forall j | 0 <= j < sel
      ensures !Hit(row, j, w)
    {
      if Hit(row, j, w) {
        HitIsSelected(pins, signal, z, w, j);
      }
    }
    ChainHit(row, 0, Bit(signal.PerioIn?), w, sel);
  }

  /** And its default when no pin is selected. */
  lemma InputReadsDefault(pins: seq<Pin>, signal: Signal, z: Sizes, w: Wires)
    requires forall io: nat :: !Selected(pins, signal, w, io)
    ensures Eval(InputChain(pins, signal, z), w) == signal.PerioIn?
  {
    hide InputArms, InputRow, Chain, PinAt, Selected;
    var row := InputArms(InputRow(pins, signal, z.sel));
    forall sel: nat
      ensures !Hit(row, sel, w)
    {
      if sel < z.sel && Hit(row, sel, w) {
        HitIsSelected(pins, signal, z, w, sel);
      }
    }
    ChainMiss(row, 0, Bit(signal.PerioIn?), w);
  }

  /** The exact condition, for any table: when the pin alone is routed, the input reads it if and
      only if the last row that names the signal at this select value is a row of this pin. */
  lemma {:induction false} InputReadsPinIff(pins: seq<Pin>, signal: Signal, z: Sizes, w: Wires, io: nat)
    requires forall k :: 0 <= k < |pins| ==> PinFits(pins[k], z)
    requires Routed(pins, signal, w, io) && forall other: nat :: Routed(pins, signal, w, other) ==> other == io
    requires w.ioIn(io) != signal.PerioIn?
    ensures Eval(InputChain(pins, signal, z), w) == w.ioIn(io) <==> NamedLast(pins, signal, w.padMux(io), io)
  {
    hide InputArms, InputRow, Chain, PinAt, NamedLast;
    PinAtIsNamedLast(pins, signal, w.padMux(io), io);
    if NamedLast(pins, signal, w.padMux(io), io) {
      ReadsLowest(pins, signal, z, w, io);
    } else {
      ReadsNothing(pins, signal, z, w, io);
    }
  }

  lemma ReadsNothing(pins: seq<Pin>, signal: Signal, z: Sizes, w: Wires, io: nat)
    requires forall other: nat :: Routed(pins, signal, w, other) ==> other == io
    requires PinAt(pins, signal, w.padMux(io)) != Some(io)
    ensures Eval(InputChain(pins, signal, z), w) == signal.PerioIn?
  {
    hide InputArms, InputRow, Chain, PinAt;
    var row := InputArms(InputRow(pins, signal, z.sel));
    forall sel: nat
      ensures !Hit(row, sel, w)
    {
      if sel < z.sel {
        InputHit(pins, signal, z, w, sel);
        HitIsRouted(pins, signal, z, w, sel);
      }
    }
    ChainMiss(row, 0, Bit(signal.PerioIn?), w);
  }

  /** The rows of the shipped pin table that name apbio_32; peripheral ports have any numbers. */
  function ShippedRows(uart1Tx: nat, csn1: nat, sdio: nat, qspi: nat): seq<Pin> {
    [Pin("JB[1]", 11, NoSys, [Apbio(32), Perio(uart1Tx, Output), Apbio(4), Fpgaio(4)]),
     Pin("JC[8]", 26, NoSys, [Apbio(32), Perio(csn1, Output), Apbio(19), Fpgaio(19)]),
     Pin("JA[3]", 39, NoSys, [Perio(sdio, Bidir), Perio(qspi, Bidir), Apbio(32), Fpgaio(32)])]
  }

  /** With pad 11 set to apbio_32 and the two others set to something else, the signal is low
      whatever the pad holds. */
  lemma ShippedPinHidden(rows: seq<Pin>, uart1Tx: nat, csn1: nat, sdio: nat, qspi: nat, z: Sizes, w: Wires)
    requires rows == ShippedRows(uart1Tx, csn1, sdio, qspi)
    requires w.padMux(11) == 0 && w.padMux(26) != 0 && w.padMux(39) != 2
    ensures Routed(rows, ApbioIn(32), w, 11) && forall other: nat :: Routed(rows, ApbioIn(32), w, other) ==> other == 11
    ensures !Eval(InputChain(rows, ApbioIn(32), z), w)
  {
    hide InputChain, Eval, PinAt;
    var s := ApbioIn(32);
    assert rows[0].io == 11 && Feeds(rows[0], s, w.padMux(11));
    assert Feeds(rows[1], s, 0);
    forall other: nat | Routed(rows, s, w, other)
      ensures other == 11
    {
      var k :| 0 <= k < |rows| && rows[k].io == other && Feeds(rows[k], s, w.padMux(other));
      assert k != 0 ==> k == 1 || k == 2;
    }
    assert !NamedLast(rows, s, 0, 11);
    PinAtIsNamedLast(rows, s, 0, 11);
    ReadsNothing(rows, s, z, w, 11);
  }

  lemma ReadsLowest(pins: seq<Pin>, signal: Signal, z: Sizes, w: Wires, io: nat)
    requires forall k :: 0 <= k < |pins| ==> PinFits(pins[k], z)
    requires Routed(pins, signal, w, io) && PinAt(pins, signal, w.padMux(io)) == Some(io)
    requires forall other: nat :: Routed(pins, signal, w, other) ==> w.padMux(io) <= w.padMux(other)
    ensures Eval(InputChain(pins, signal, z), w) == w.ioIn(io)
  {
    hide InputArms, InputRow, Chain, PinAt;
    var row, sel := InputArms(InputRow(pins, signal, z.sel)), w.padMux(io);
    InputHit(pins, signal, z, w, sel);
    forall k | 0 <= k < sel
      ensures !Hit(row, k, w)
    {
      InputHit(pins, signal, z, w, k);
      HitIsRouted(pins, signal, z, w, k);
    }
    ChainHit(row, 0, Bit(signal.PerioIn?), w, sel);
  }

  // ----- Outputs -----

  /** What the generated module assigns to a pin; an output sysio has no output assignment. */
  datatype PinDriver = PinDriver(out: Option<Expr>, oe: Expr)

  function Driver(pins: seq<Pin>, io: nat, z: Sizes): PinDriver {
    var out := Chain(OutputArms(io, OutRow(pins, io, z.sel)), 0, Bit(false));
    var oe := Chain(OutputArms(io, OeRow(pins, io, z.sel)), 0, Bit(false));
    match SysAt(pins, io)
    case None => PinDriver(Some(out), oe)
    case Some(Snoop) => PinDriver(Some(out), oe)
    case Some(SysInput) => PinDriver(Some(Leaf(Bit(false))), Leaf(Bit(false)))
    case Some(SysOutput) => PinDriver(None, Leaf(Bit(true)))
  }

  function OutRow(pins: seq<Pin>, io: nat, cols: nat): (row: seq<Cell>)
    ensures |row| == cols
  {
    seq(cols, sel requires 0 <= sel < cols => OutCell(pins, io, sel))
  }

  function OeRow(pins: seq<Pin>, io: nat, cols: nat): (row: seq<Cell>)
    ensures |row| == cols
  {
    seq(cols, sel requires 0 <= sel < cols => OeCell(pins, io, sel))
  }

  /** The level a pad is driven to, or none. */
  function PadLevel(out: bool, oe: bool): Option<bool> {
    if oe then Some(out) else None
  }

  /** What a pin-table entry asks of the pad. */
  function Asked(e: Entry, w: Wires): Option<bool> {
    match e
    case One => Some(true)
    case Zero => Some(false)
    case Apbio(n) => PadLevel(w.apbioOut(n), w.apbioOe(n))
    case Fpgaio(n) => PadLevel(w.fpgaioOut(n), w.fpgaioOe(n))
    case Perio(n, Output) => Some(w.perioOut(n))
    case Perio(n, Bidir) => PadLevel(w.perioOut(n), w.perioOe(n))
    case _ => None
  }

  lemma {:induction false} OutputChain(io: nat, row: seq<Cell>, w: Wires)
    ensures Eval(Chain(OutputArms(io, row), 0, Bit(false)), w)
         == (w.padMux(io) < |row| && row[w.padMux(io)].Some? && Value(row[w.padMux(io)].value, w))
  {
    hide Chain;
    var sel := w.padMux(io);
    var arms := OutputArms(io, row);
    if sel < |row| && row[sel].Some? {
      ChainHit(arms, 0, Bit(false), w, sel);
    } else {
      ChainMiss(arms, 0, Bit(false), w);
    }
  }

  /** A pin that is not a driven sysio drives what the entry selected by its own pad_mux
      asks for, and nothing when no entry is selected. */
  lemma PadDrivesSelected(pins: seq<Pin>, io: nat, z: Sizes, w: Wires)
    requires w.padMux(io) < z.sel
    requires SysAt(pins, io).None? || SysAt(pins, io) == Some(Snoop)
    ensures var d := Driver(pins, io, z);
      var e := EntryAt(pins, io, w.padMux(io));
      d.out.Some? && PadLevel(Eval(d.out.value, w), Eval(d.oe, w)) == if e.None? then None else Asked(e.value, w)
  {
    hide Chain, EntryAt, OutputArms;
    OutputChain(io, OutRow(pins, io, z.sel), w);
    OutputChain(io, OeRow(pins, io, z.sel), w);
  }

  /** With one row a pin, the entry selected is the one in the pin's own row. */
  lemma {:induction false} EntryInOwnRow(pins: seq<Pin>, k: nat, sel: nat)
    requires k < |pins| && forall j :: 0 <= j < |pins| && j != k ==> pins[j].io != pins[k].io
    ensures EntryAt(pins, pins[k].io, sel)
         == if Sets(pins[k], pins[k].io, sel) then Some(pins[k].entries[sel]) else None
  {
    var init := pins[..|pins| - 1];
    if k < |pins| - 1 {
      EntryInOwnRow(init, k, sel);
    } else {
      NoEntry(init, pins[k].io, sel);
    }
  }

  lemma {:induction false} NoEntry(pins: seq<Pin>, io: nat, sel: nat)
    requires forall j :: 0 <= j < |pins| ==> pins[j].io != io
    ensures EntryAt(pins, io, sel) == None
  {
    if pins != [] {
      NoEntry(pins[..|pins| - 1], io, sel);
    }
  }

  /** A bidirectional peripheral port and its pin see each other: the port's output reaches
      the pad exactly while its enable is high, and the port reads the pad. */
  lemma BidirectionalLoop(pins: seq<Pin>, k: nat, n: nat, z: Sizes, w: Wires)
    requires (forall j :: 0 <= j < |pins| ==> PinFits(pins[j], z)) && PairsUnique(pins)
    requires k < |pins| && forall j :: 0 <= j < |pins| && j != k ==> pins[j].io != pins[k].io
    requires SysAt(pins, pins[k].io).None? && w.padMux(pins[k].io) < |pins[k].entries|
    requires pins[k].entries[w.padMux(pins[k].io)] == Perio(n, Bidir)
    requires forall other: nat :: Routed(pins, PerioIn(n), w, other) ==> other == pins[k].io
    ensures var d := Driver(pins, pins[k].io, z);
      && d.out.Some?
      && PadLevel(Eval(d.out.value, w), Eval(d.oe, w)) == PadLevel(w.perioOut(n), w.perioOe(n))
      && Eval(InputChain(pins, PerioIn(n), z), w) == w.ioIn(pins[k].io)
  {
    hide Driver, InputChain, EntryAt, PairsUnique;
    PadDrivesSelected(pins, pins[k].io, z, w);
    EntryInOwnRow(pins, k, w.padMux(pins[k].io));
    assert Feeds(pins[k], PerioIn(n), w.padMux(pins[k].io));
    InputReadsPin(pins, PerioIn(n), z, w, pins[k].io);
  }

  // ----- Writing the module -----

  datatype Bus = PerioBus | ApbioBus | FpgaioBus

  function SignalOn(bus: Bus, n: nat): Signal {
    match bus
    case PerioBus => PerioIn(n)
    case ApbioBus => ApbioIn(n)
    case FpgaioBus => FpgaioIn(n)
  }

  /** The assignments to one input bus: the text reads back as the chains of its signals. */
  method EmitInputBus(table: Table, bus: Bus, ghost pins: seq<Pin>, ghost z: Sizes) returns (texts: seq<seq<Token>>)
    requires forall n :: 0 <= n < |table| ==> table[n] == InputRow(pins, SignalOn(bus, n), z.sel)
    ensures |texts| == |table|
    ensures forall n :: 0 <= n < |texts| ==> Parse(texts[n]) == Some((InputChain(pins, SignalOn(bus, n), z), []))
  {
    hide Parse, Text, Chain, InputArms, InputRow;
    texts := [];
    for n := 0 to |table|
      invariant |texts| == n
      invariant forall k :: 0 <= k < n ==> Parse(texts[k]) == Some((InputChain(pins, SignalOn(bus, k), z), []))
    {
      var text := EmitChain(InputArms(table[n]), Bit(bus == PerioBus));
      texts := texts + [text];
    }
  }

  /** The assignments to the pads. */
  method EmitPads(out: Table, oe: Table, sysNames: seq<Option<SysDirection>>, ghost pins: seq<Pin>, ghost z: Sizes)
    returns (outs: seq<Option<seq<Token>>>, oes: seq<seq<Token>>)
    requires |out| == |oe| == |sysNames|
    requires forall io :: 0 <= io < |out| ==> PadTabled(out[io], oe[io], sysNames[io], pins, io, z)
    ensures |outs| == |oes| == |out|
    ensures forall io :: 0 <= io < |out| ==> Assigns(outs[io], oes[io], Driver(pins, io, z))
  {
    hide Parse, Text, OutRow, OeRow, Chain, OutputArms;
    outs, oes := [], [];
    for io := 0 to |out|
      invariant |outs| == |oes| == io
      invariant forall k :: 0 <= k < io ==> Assigns(outs[k], oes[k], Driver(pins, k, z))
    {
      assert PadTabled(out[io], oe[io], sysNames[io], pins, io, z);
      if sysNames[io] == Some(SysInput) || sysNames[io] == Some(SysOutput) {
        ConstantParses(false);
        ConstantParses(true);
        outs := outs + [if sysNames[io] == Some(SysInput) then Some([Default(Bit(false))]) else None];
        oes := oes + [[Default(Bit(sysNames[io] == Some(SysOutput)))]];
      } else {
        var outText := EmitChain(OutputArms(io, out[io]), Bit(false));
        var oeText := EmitChain(OutputArms(io, oe[io]), Bit(false));
        outs := outs + [Some(outText)];
        oes := oes + [oeText];
      }
    }
  }

  predicate PadTabled(out: seq<Cell>, oe: seq<Cell>, name: Option<SysDirection>, pins: seq<Pin>, io: nat, z: Sizes) {
    out == OutRow(pins, io, z.sel) && oe == OeRow(pins, io, z.sel) && name == SysAt(pins, io)
  }

  /** The texts of a pad read back as its driver. */
  predicate Assigns(out: Option<seq<Token>>, oe: seq<Token>, d: PinDriver) {
    && Parse(oe) == Some((d.oe, []))
    && out.Some? == d.out.Some?
    && (out.Some? ==> Parse(out.value) == Some((d.out.value, [])))
  }

  lemma ConstantParses(b: bool)
    ensures Parse([Default(Bit(b))]) == Some((Leaf(Bit(b)), []))
  {
    assert [Default(Bit(b))][1..] == [];
  }

  /** From the pin table to the text of the module: every assignment reads back as the chain
      or driver that the pin table means. */
  method Compile(pins: seq<Pin>, z: Sizes)
    returns (perio: seq<seq<Token>>, apbio: seq<seq<Token>>, fpgaio: seq<seq<Token>>,
             outs: seq<Option<seq<Token>>>, oes: seq<seq<Token>>)
    requires |pins| <= z.io && forall k :: 0 <= k < |pins| ==> PinFits(pins[k], z)
    ensures |perio| == z.perio && |apbio| == z.apbio && |fpgaio| == z.fpgaio && |outs| == |oes| == z.io
    ensures forall n :: 0 <= n < z.perio ==> Parse(perio[n]) == Some((InputChain(pins, SignalOn(PerioBus, n), z), []))
    ensures forall n :: 0 <= n < z.apbio ==> Parse(apbio[n]) == Some((InputChain(pins, SignalOn(ApbioBus, n), z), []))
    ensures forall n :: 0 <= n < z.fpgaio ==>
      Parse(fpgaio[n]) == Some((InputChain(pins, SignalOn(FpgaioBus, n), z), []))
    ensures forall io :: 0 <= io < z.io ==> Assigns(outs[io], oes[io], Driver(pins, io, z))
  {
    hide Parse, InputChain, Driver, Assigns, SysAt, PinAt, EntryAt, PinFits;
    var g := new Generator(z);
    g.ReadPinTable(pins);
    RowsTabled(g.ioOut, g.ioOe, g.perioIn, g.apbioIn, g.fpgaioIn, pins, z);
    perio := EmitInputBus(g.perioIn, PerioBus, pins, z);
    apbio := EmitInputBus(g.apbioIn, ApbioBus, pins, z);
    fpgaio := EmitInputBus(g.fpgaioIn, FpgaioBus, pins, z);
    outs, oes := EmitPads(g.ioOut, g.ioOe, g.sysNames, pins, z);
  }

  lemma RowsTabled(out: Table, oe: Table, perio: Table, apbio: Table, fpgaio: Table, pins: seq<Pin>, z: Sizes)
    requires Tabled(out, oe, perio, apbio, fpgaio, pins, z)
    ensures forall n :: 0 <= n < z.perio ==> perio[n] == InputRow(pins, SignalOn(PerioBus, n), z.sel)
    ensures forall n :: 0 <= n < z.apbio ==> apbio[n] == InputRow(pins, SignalOn(ApbioBus, n), z.sel)
    ensures forall n :: 0 <= n < z.fpgaio ==> fpgaio[n] == InputRow(pins, SignalOn(FpgaioBus, n), z.sel)
    ensures forall io :: 0 <= io < z.io ==> out[io] == OutRow(pins, io, z.sel) && oe[io] == OeRow(pins, io, z.sel)
  {
    hide InCell, OutCell, OeCell;
  }
}

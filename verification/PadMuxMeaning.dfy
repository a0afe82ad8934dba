/** What the module that util/ioscript.py compiles from a pin table does, from the rows of the table
    to the levels its text gives the pads and the buses. */
module PadMuxMeaning {
  import opened Options
  import opened PadMux

  /** The text is one whole expression, of this value. */
  predicate Reads(text: seq<Token>, w: Wires, b: bool) {
    Parse(text).Some? && Parse(text).value.1 == [] && Eval(Parse(text).value.0, w) == b
  }

  // ----- Rows -----

  /** Row k is the last one of the pin that has a sysio. */
  predicate SysRow(pins: seq<Pin>, io: nat, k: nat) {
    && k < |pins| && pins[k].io == io && pins[k].sys.Sys?
    && forall j :: k < j < |pins| && pins[j].io == io ==> !pins[j].sys.Sys?
  }

  /** Row k is the last one of the pin with an option at sel that is no sysio name. */
  predicate OptionRow(pins: seq<Pin>, io: nat, sel: nat, k: nat) {
    && k < |pins| && IsOption(pins[k], io, sel)
    && forall j :: k < j < |pins| ==> !IsOption(pins[j], io, sel)
  }

  predicate IsOption(p: Pin, io: nat, sel: nat) {
    p.io == io && sel < |p.entries| && p.entries[sel] != Misplaced
  }

  /** Row k is the last one that offers line n of the bus at sel. */
  predicate OfferRow(pins: seq<Pin>, bus: Bus, n: nat, sel: nat, k: nat) {
    && k < |pins| && Offers(pins[k], bus, n, sel)
    && forall j :: k < j < |pins| ==> !Offers(pins[j], bus, n, sel)
  }

  predicate Offers(p: Pin, bus: Bus, n: nat, sel: nat) {
    && sel < |p.entries|
    && match bus
       case ApbioBus => p.entries[sel] == Apbio(n)
       case FpgaioBus => p.entries[sel] == Fpgaio(n)
       case PerioBus => p.entries[sel].Perio? && p.entries[sel].num == n
  }

  // ----- Pads -----

  /** The output of an option: its bus, or a constant; of a peripheral input it is low. */
  function OutOf(e: Entry, w: Wires): bool {
    match e
    case One => true
    case Apbio(n) => w.apbioOut(n)
    case Fpgaio(n) => w.fpgaioOut(n)
    case Perio(n, Output) => w.perioOut(n)
    case Perio(n, Bidir) => w.perioOut(n)
    case _ => false
  }

  /** Its output enable. */
  function OeOf(e: Entry, w: Wires): bool {
    match e
    case One => true
    case Zero => true
    case Apbio(n) => w.apbioOe(n)
    case Fpgaio(n) => w.fpgaioOe(n)
    case Perio(n, Output) => true
    case Perio(n, Bidir) => w.perioOe(n)
    case _ => false
  }

  /** The pad's output and enable are those of the option that its own pad_mux selects, or low. */
  ghost predicate Multiplexed(pins: seq<Pin>, io: nat, w: Wires, out: Option<seq<Token>>, oe: seq<Token>) {
    && out.Some?
    && (forall k: nat :: OptionRow(pins, io, w.padMux(io), k) ==>
      && Reads(out.value, w, OutOf(pins[k].entries[w.padMux(io)], w))
      && Reads(oe, w, OeOf(pins[k].entries[w.padMux(io)], w)))
    && ((forall k: nat :: !OptionRow(pins, io, w.padMux(io), k)) ==> Reads(out.value, w, false) && Reads(oe, w, false))
  }

  /** An input sysio has its pad low and disabled, an output sysio has it enabled and assigned
      elsewhere; a snooped pad and one without a sysio are multiplexed. */
  ghost predicate PadMeans(pins: seq<Pin>, io: nat, w: Wires, out: Option<seq<Token>>, oe: seq<Token>) {
    && (forall k: nat :: SysRow(pins, io, k) ==>
      match pins[k].sys.direction
      case SysInput => out.Some? && Reads(out.value, w, false) && Reads(oe, w, false)
      case SysOutput => out.None? && Reads(oe, w, true)
      case Snoop => Multiplexed(pins, io, w, out, oe))
    && ((forall k: nat :: !SysRow(pins, io, k)) ==> Multiplexed(pins, io, w, out, oe))
  }

  /** A line of a bus reads the pad of the row whose select value its pad_mux has, of several the
      lowest; of none its default, high for peripherals and low for the others. */
  ghost predicate LineMeans(pins: seq<Pin>, bus: Bus, n: nat, w: Wires, text: seq<Token>) {
    && (forall k: nat :: Chosen(pins, bus, n, w, k) && Lowest(pins, bus, n, w, w.padMux(pins[k].io)) ==>
      Reads(text, w, w.ioIn(pins[k].io)))
    && ((forall k: nat :: !Chosen(pins, bus, n, w, k)) ==> Reads(text, w, bus == PerioBus))
  }

  predicate Chosen(pins: seq<Pin>, bus: Bus, n: nat, w: Wires, k: nat) {
    k < |pins| && OfferRow(pins, bus, n, w.padMux(pins[k].io), k)
  }

  ghost predicate Lowest(pins: seq<Pin>, bus: Bus, n: nat, w: Wires, sel: nat) {
    forall k: nat :: Chosen(pins, bus, n, w, k) ==> sel <= w.padMux(pins[k].io)
  }

  // ----- From the tables to the rows -----

  lemma {:induction false} SysAtRow(pins: seq<Pin>, io: nat) returns (k: Option<nat>)
    ensures SysAt(pins, io).Some? <==> k.Some?
    ensures k.Some? ==> SysRow(pins, io, k.value) && SysAt(pins, io) == Some(pins[k.value].sys.direction)
    ensures k.None? ==> forall j: nat :: !SysRow(pins, io, j)
    ensures k.Some? ==> forall j: nat :: SysRow(pins, io, j) ==> j == k.value
  {
    if pins == [] {
      k := None;
    } else {
      var p, init := pins[|pins| - 1], pins[..|pins| - 1];
      if p.io == io && p.sys.Sys? {
        k := Some(|pins| - 1);
      } else {
        k := SysAtRow(init, io);
        forall j: nat
          ensures SysRow(pins, io, j) <==> SysRow(init, io, j)
        {
        }
      }
    }
  }

  lemma {:induction false} EntryAtRow(pins: seq<Pin>, io: nat, sel: nat) returns (k: Option<nat>)
    ensures EntryAt(pins, io, sel).Some? <==> k.Some?
    ensures k.Some? ==> OptionRow(pins, io, sel, k.value) && IsOption(pins[k.value], io, sel)
    ensures k.Some? ==> EntryAt(pins, io, sel) == Some(pins[k.value].entries[sel])
    ensures k.None? ==> forall j: nat :: !OptionRow(pins, io, sel, j)
    ensures k.Some? ==> forall j: nat :: OptionRow(pins, io, sel, j) ==> j == k.value
  {
    if pins == [] {
      k := None;
    } else {
      var p, init := pins[|pins| - 1], pins[..|pins| - 1];
      if IsOption(p, io, sel) {
        k := Some(|pins| - 1);
      } else {
        k := EntryAtRow(init, io, sel);
        forall j: nat
          ensures OptionRow(pins, io, sel, j) <==> OptionRow(init, io, sel, j)
        {
        }
      }
    }
  }

  lemma OfferRowIs(pins: seq<Pin>, bus: Bus, n: nat, sel: nat, k: nat)
    ensures OfferRow(pins, bus, n, sel, k) <==> IsLastNaming(pins, SignalOn(bus, n), sel, k)
  {
    forall j | 0 <= j < |pins|
      ensures Offers(pins[j], bus, n, sel) <==> Feeds(pins[j], SignalOn(bus, n), sel)
    {
    }
    hide Offers, Feeds;
  }

  lemma ChosenIsSelected(pins: seq<Pin>, bus: Bus, n: nat, w: Wires)
    ensures forall k: nat :: Chosen(pins, bus, n, w, k) ==>
      k < |pins| && Selected(pins, SignalOn(bus, n), w, pins[k].io)
    ensures forall io: nat :: Selected(pins, SignalOn(bus, n), w, io) ==>
      exists k: nat :: Chosen(pins, bus, n, w, k) && pins[k].io == io
  {
    hide OfferRow, IsLastNaming, SignalOn;
    forall k: nat | k < |pins|
      ensures Chosen(pins, bus, n, w, k) <==> IsLastNaming(pins, SignalOn(bus, n), w.padMux(pins[k].io), k)
    {
      OfferRowIs(pins, bus, n, w.padMux(pins[k].io), k);
    }
  }

  // ----- The module -----

  lemma LineIs(pins: seq<Pin>, bus: Bus, n: nat, z: Sizes, w: Wires, text: seq<Token>)
    requires forall k :: 0 <= k < |pins| ==> PinFits(pins[k], z)
    requires Parse(text) == Some((InputChain(pins, SignalOn(bus, n), z), []))
    ensures LineMeans(pins, bus, n, w, text)
  {
    hide Parse, InputChain, Chosen, Selected, PinFits;
    var s := SignalOn(bus, n);
    ChosenIsSelected(pins, bus, n, w);
    forall k: nat | k < |pins| && Chosen(pins, bus, n, w, k) && Lowest(pins, bus, n, w, w.padMux(pins[k].io))
      ensures Eval(InputChain(pins, s, z), w) == w.ioIn(pins[k].io)
    {
      InputReadsSelected(pins, s, z, w, pins[k].io);
    }
    if forall k: nat :: !Chosen(pins, bus, n, w, k) {
      InputReadsDefault(pins, s, z, w);
    }
  }

  lemma TermsMean(e: Entry, w: Wires)
    requires e != Misplaced
    ensures Value(OutTerm(e), w) == OutOf(e, w) && Value(OeTerm(e), w) == OeOf(e, w)
  {
  }

  /** The multiplexed driver of a pad, from its rows. */
  lemma MultiplexedIs(pins: seq<Pin>, io: nat, z: Sizes, w: Wires, out: Option<seq<Token>>, oe: seq<Token>)
    requires forall k :: 0 <= k < |pins| ==> PinFits(pins[k], z)
    requires out.Some?
    requires Parse(out.value) == Some((Chain(OutputArms(io, OutRow(pins, io, z.sel)), 0, Bit(false)), []))
    requires Parse(oe) == Some((Chain(OutputArms(io, OeRow(pins, io, z.sel)), 0, Bit(false)), []))
    ensures Multiplexed(pins, io, w, out, oe)
  {
    hide Parse, Chain, OutputArms, OptionRow, OutTerm, OeTerm, Value, Eval, EntryAt, OutOf, OeOf;
    var sel := w.padMux(io);
    OutputChain(io, OutRow(pins, io, z.sel), w);
    OutputChain(io, OeRow(pins, io, z.sel), w);
    var k := EntryAtRow(pins, io, sel);
    if k.Some? {
      assert sel < z.sel by {
        OptionInTable(pins, io, sel, z, k.value);
      }
      TermsMean(pins[k.value].entries[sel], w);
    }
  }

  lemma OptionInTable(pins: seq<Pin>, io: nat, sel: nat, z: Sizes, k: nat)
    requires OptionRow(pins, io, sel, k) && forall j :: 0 <= j < |pins| ==> PinFits(pins[j], z)
    ensures sel < z.sel
  {
    assert PinFits(pins[k], z);
  }

  lemma ConstantReads(text: seq<Token>, b: bool, w: Wires)
    requires Parse(text) == Some((Leaf(Bit(b)), []))
    ensures Reads(text, w, b)
  {
  }

  lemma PadIs(pins: seq<Pin>, io: nat, z: Sizes, w: Wires, out: Option<seq<Token>>, oe: seq<Token>)
    requires forall k :: 0 <= k < |pins| ==> PinFits(pins[k], z)
    requires Assigns(out, oe, Driver(pins, io, z))
    ensures PadMeans(pins, io, w, out, oe)
  {
    hide Parse, Chain, OutputArms, OutRow, OeRow, SysRow, SysAt, Multiplexed, Reads;
    var k := SysAtRow(pins, io);
    if k.None? || pins[k.value].sys.direction == Snoop {
      MultiplexedIs(pins, io, z, w, out, oe);
    } else {
      var high := pins[k.value].sys.direction == SysOutput;
      ConstantReads(oe, high, w);
      if !high {
        ConstantReads(out.value, false, w);
      }
    }
  }

  /** The compiled module, pad by pad and line by line, for every level of its wires. */
  method CompileModule(pins: seq<Pin>, z: Sizes)
    returns (perio: seq<seq<Token>>, apbio: seq<seq<Token>>, fpgaio: seq<seq<Token>>,
             outs: seq<Option<seq<Token>>>, oes: seq<seq<Token>>)
    requires |pins| <= z.io && forall k :: 0 <= k < |pins| ==> PinFits(pins[k], z)
    ensures |perio| == z.perio && |apbio| == z.apbio && |fpgaio| == z.fpgaio && |outs| == |oes| == z.io
    ensures forall w, io :: 0 <= io < z.io ==> PadMeans(pins, io, w, outs[io], oes[io])
    ensures forall w, n :: 0 <= n < z.perio ==> LineMeans(pins, PerioBus, n, w, perio[n])
    ensures forall w, n :: 0 <= n < z.apbio ==> LineMeans(pins, ApbioBus, n, w, apbio[n])
    ensures forall w, n :: 0 <= n < z.fpgaio ==> LineMeans(pins, FpgaioBus, n, w, fpgaio[n])
  {
    hide Parse, InputChain, Driver, Assigns, LineMeans, PadMeans, PinFits;
    perio, apbio, fpgaio, outs, oes := Compile(pins, z);
    forall w, io | 0 <= io < z.io
      ensures PadMeans(pins, io, w, outs[io], oes[io])
    {
      PadIs(pins, io, z, w, outs[io], oes[io]);
    }
    forall w, n | 0 <= n < z.perio
      ensures LineMeans(pins, PerioBus, n, w, perio[n])
    {
      LineIs(pins, PerioBus, n, z, w, perio[n]);
    }
    forall w, n | 0 <= n < z.apbio
      ensures LineMeans(pins, ApbioBus, n, w, apbio[n])
    {
      LineIs(pins, ApbioBus, n, z, w, apbio[n]);
    }
    forall w, n | 0 <= n < z.fpgaio
      ensures LineMeans(pins, FpgaioBus, n, w, fpgaio[n])
    {
      LineIs(pins, FpgaioBus, n, z, w, fpgaio[n]);
    }
  }

  /** No error is counted in a table of known sysio names, all in the sysio column, with a Xilinx
      name of its own in every row; and in no other. */
  lemma {:induction false} NoErrorsIff(pins: seq<Pin>)
    ensures Errors(pins) == 0 <==>
      && (forall k :: 0 <= k < |pins| ==> pins[k].xilinx != "" && !pins[k].sys.UnknownSys?)
      && (forall j, k :: 0 <= j < k < |pins| ==> pins[j].xilinx != pins[k].xilinx)
      && (forall k :: 0 <= k < |pins| ==> Misplaced !in pins[k].entries)
  {
    if pins != [] {
      var p, init := pins[|pins| - 1], pins[..|pins| - 1];
      NoErrorsIff(init);
      NoneMisplacedIff(p.entries);
      assert pins == init + [p];
    }
  }

  lemma {:induction false} NoneMisplacedIff(entries: seq<Entry>)
    ensures Misplacements(entries) == 0 <==> Misplaced !in entries
  {
    if entries != [] {
      var init := entries[..|entries| - 1];
      NoneMisplacedIff(init);
      assert entries == init + [entries[|entries| - 1]];
    }
  }
}

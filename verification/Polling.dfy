/** The polling loop of a2_boot/main.c, in which the UART and the I2C loader take
    turns until one of them has been spoken to. */
module Polling {
  import opened Options
  import opened Words
  import opened Memory
  import opened Effects
  import Uart
  import I2c
  import UartRecords
  import I2cTheorems
  import Hex

  const INVITATION_PERIOD := 90000

  /** What one iteration finds: the JTAG register changed, a UART character, the I2C side. */
  datatype Input = Input(jtag: bool, uart: Option<uint8>, i2c: I2c.Poll)

  /** All that the loop's iterations share. */
  datatype Main = Main(
    uart: Uart.State,
    rxBuf: seq<uint8>, useCrc: bool,
    stopMsg: bool, stopUart: bool, stopI2c: bool,
    ram: Ram, uartLog: seq<Event>, i2cLog: seq<Event>,
    flow: Flow,
    bootsel: nat, invitations: nat)
  {
    function UartView(): Uart.Machine {
      Uart.Machine(uart, stopMsg, stopI2c, ram, uartLog, flow)
    }

    function AfterUart(u: Uart.Machine): Main {
      this.(uart := u.s, stopMsg := u.stopMsg, stopI2c := u.stopI2c, ram := u.ram, uartLog := u.log, flow := u.flow)
    }

    function I2cView(): I2c.Machine {
      I2c.Machine(rxBuf, useCrc, stopMsg, stopUart, ram, i2cLog, flow)
    }

    function AfterI2c(i: I2c.Machine): Main {
      this.(rxBuf := i.rxBuf, useCrc := i.useCrc, stopMsg := i.stopMsg, stopUart := i.stopUart,
            ram := i.ram, i2cLog := i.log, flow := i.flow)
    }
  }

  /** The loop is entered with all flags and buffers zero. */
  ghost predicate Fresh(m: Main) {
    && Uart.InBounds(m.uart) && m.uart.phase == Uart.Idle && |m.rxBuf| == I2c.RX_BUF_LEN
    && !m.stopMsg && !m.stopUart && !m.stopI2c
    && m.uartLog == [] && m.i2cLog == [] && m.flow == Running
  }

  /** What every iteration keeps: the loaders are never both stopped, an I2C loader
      still listening means an idle UART machine, and a loader that has done anything
      has stopped the other. */
  ghost predicate Inv(m: Main) {
    && |m.rxBuf| == I2c.RX_BUF_LEN
    && (m.flow == Running ==> Uart.InBounds(m.uart))
    && !(m.stopUart && m.stopI2c)
    && (!m.stopI2c ==> m.uart.phase == Uart.Idle)
    && (m.uartLog != [] ==> m.stopI2c)
    && (m.i2cLog != [] ==> m.stopUart)
  }

  function PollUart(m: Main, c: Option<uint8>): Main
    requires Inv(m) && m.flow == Running
  {
    if m.stopUart then m else m.AfterUart(Uart.Poll(m.UartView(), c))
  }

  function PollI2c(m: Main, p: I2c.Poll): Main
    requires |m.rxBuf| == I2c.RX_BUF_LEN && p.Possible()
  {
    if m.flow != Running || m.stopI2c then m else m.AfterI2c(I2c.Step(m.I2cView(), p))
  }

  /** The invitation every so many iterations, until a loader has been spoken to. */
  function Count(m: Main): Main {
    if m.flow != Running then m
    else if m.bootsel + 1 < INVITATION_PERIOD then m.(bootsel := m.bootsel + 1)
    else m.(bootsel := 0, invitations := m.invitations + if m.stopMsg then 0 else 1)
  }

  function Iterate(m: Main, x: Input): Main
    requires Inv(m) && m.flow == Running && x.i2c.Possible()
  {
    if x.jtag then m.(flow := Gone)
    else
      UartKeepsInv(m, x.uart);
      Count(PollI2c(PollUart(m, x.uart), x.i2c))
  }

  // ----- One iteration -----

  /** An idle UART machine does nothing visible. */
  lemma IdleIsSilent(u: Uart.Machine, c: uint8)
    requires u.flow == Running && Uart.InBounds(u.s) && u.s.phase == Uart.Idle
    ensures var u' := Uart.Step(u, c);
      && u'.log == u.log && u'.ram == u.ram && u'.flow == Running
      && (c == Uart.CHAR_S ==> u'.stopI2c && u'.stopMsg)
      && (c != Uart.CHAR_S ==> u' == u)
  {
  }

  lemma UartFlags(u: Uart.Machine, c: uint8)
    requires u.flow == Running && Uart.InBounds(u.s)
    ensures u.stopI2c ==> Uart.Step(u, c).stopI2c
    ensures u.stopMsg ==> Uart.Step(u, c).stopMsg
  {
  }

  lemma UartKeepsInv(m: Main, c: Option<uint8>)
    requires Inv(m) && m.flow == Running
    ensures Inv(PollUart(m, c))
  {
    hide Uart.Step, Uart.InBounds;
    if !m.stopUart && c.Some? {
      Uart.StepInBounds(m.UartView(), c.value);
      UartFlags(m.UartView(), c.value);
      if !m.stopI2c {
        IdleIsSilent(m.UartView(), c.value);
      }
    }
  }

  /** Whatever the I2C loader does, it first stops the UART loader. */
  lemma I2cStops(i: I2c.Machine, p: I2c.Poll)
    requires i.Valid() && p.Possible() && i.flow == Running
    ensures var i' := I2c.Step(i, p);
      && (i.stopUart ==> i'.stopUart) && (i.stopMsg ==> i'.stopMsg)
      && (i' == i || (i'.stopUart && i'.stopMsg))
  {
    hide I2c.Passes, I2c.Payload, I2c.Sof, I2c.RamAddress, Apply;
  }

  lemma I2cKeepsInv(m: Main, p: I2c.Poll)
    requires Inv(m) && p.Possible()
    ensures Inv(PollI2c(m, p))
  {
    hide I2c.Step;
    if m.flow == Running && !m.stopI2c {
      I2cStops(m.I2cView(), p);
    }
  }

  lemma IterationKeepsInv(m: Main, x: Input)
    requires Inv(m) && m.flow == Running && x.i2c.Possible()
    ensures Inv(Iterate(m, x))
  {
    hide Uart.Poll, I2c.Step, Uart.InBounds;
    if !x.jtag {
      UartKeepsInv(m, x.uart);
      I2cKeepsInv(PollUart(m, x.uart), x.i2c);
    }
  }

  // ----- Runs -----

  predicate AllPossible(xs: seq<Input>) {
    forall i :: 0 <= i < |xs| ==> xs[i].i2c.Possible()
  }

  function Run(m: Main, xs: seq<Input>): (m': Main)
    requires Inv(m) && AllPossible(xs)
    ensures Inv(m')
    decreases |xs|
  {
    if xs == [] || m.flow != Running then m
    else
      IterationKeepsInv(m, xs[0]);
      Run(Iterate(m, xs[0]), xs[1..])
  }

  /** The loop, for as long as inputs last or until it is left by a jump. */
  method PollingLoop(m0: Main, xs: seq<Input>) returns (m: Main)
    requires Fresh(m0) && AllPossible(xs)
    ensures m == Run(m0, xs)
  {
    m := m0;
    assert Inv(m);
    hide Iterate, Inv;
    var i := 0;
    while i < |xs| && m.flow == Running
      invariant 0 <= i <= |xs| && Inv(m)
      invariant Run(m, xs[i..]) == Run(m0, xs)
    {
      assert xs[i..][1..] == xs[i + 1..];
      IterationKeepsInv(m, xs[i]);
      m := OneIteration(m, xs[i]);
      i := i + 1;
    }
  }

  /** The body of the loop. */
  method OneIteration(m0: Main, x: Input) returns (m: Main)
    requires Inv(m0) && m0.flow == Running && x.i2c.Possible()
    ensures m == Iterate(m0, x)
  {
    hide Uart.Poll, I2c.Step, Uart.InBounds;
    UartKeepsInv(m0, x.uart);
    m := m0;
    if x.jtag {
      m := m.(flow := Gone);
    } else {
      if !m.stopUart {
        m := PollUart(m, x.uart);
      }
      if m.flow == Running && !m.stopI2c {
        m := PollI2c(m, x.i2c);
      }
      if m.flow == Running {
        m := m.(bootsel := m.bootsel + 1);
        if m.bootsel >= INVITATION_PERIOD {
          if !m.stopMsg {
            m := m.(invitations := m.invitations + 1);
          }
          m := m.(bootsel := 0);
        }
      }
    }
  }

  // ----- One channel only -----

  /** A call extends the log, and RAM changes by exactly what it adds. */
  ghost predicate Extends(log: seq<Event>, ram: Ram, log': seq<Event>, ram': Ram) {
    log <= log' && ram' == Replay(ram, log'[|log|..])
  }

  lemma NothingAdded(log: seq<Event>, ram: Ram)
    ensures Extends(log, ram, log, ram)
  {
    assert log[|log|..] == [];
  }

  lemma OneAdded(log: seq<Event>, ram: Ram, e: Event)
    ensures Extends(log, ram, log + [e], Apply(ram, e))
  {
    assert (log + [e])[|log|..] == [e];
    ReplayOne(ram, e);
  }

  lemma AddedTwice(log: seq<Event>, ram: Ram, log1: seq<Event>, ram1: Ram, log2: seq<Event>, ram2: Ram)
    requires Extends(log, ram, log1, ram1) && Extends(log1, ram1, log2, ram2)
    ensures Extends(log, ram, log2, ram2)
  {
    assert log2[|log|..] == log1[|log|..] + log2[|log1|..];
    ReplayConcat(ram, log1[|log|..], log2[|log1|..]);
  }

  lemma UartExtends(u: Uart.Machine, c: uint8)
    requires u.flow == Running && Uart.InBounds(u.s)
    ensures var u' := Uart.Step(u, c); Extends(u.log, u.ram, u'.log, u'.ram)
  {
    hide Extends, Apply, Uart.StepCount, Uart.StepAddress, Uart.StepData, Uart.StepRecordType, Hex.Atoh;
    NothingAdded(u.log, u.ram);
    if u.s.phase == Uart.GetCrc && u.s.fillIndex == 1 {
      var s := u.s;
      var e := Wrote(s.address, s.writeBuf[..s.writeIndex]);
      OneAdded(u.log, u.ram, SaidOk);
      OneAdded(u.log, u.ram, SaidNotOk);
      OneAdded(u.log, u.ram, Jumped(s.address));
      OneAdded(u.log, u.ram, e);
      OneAdded(u.log + [e], Apply(u.ram, e), SaidOk);
      AddedTwice(u.log, u.ram, u.log + [e], Apply(u.ram, e), u.log + [e] + [SaidOk], Apply(Apply(u.ram, e), SaidOk));
    }
  }

  lemma ObeyExtends(i: I2c.Machine, p: I2c.Poll)
    requires i.Valid() && p.Possible() && i.flow == Running
    ensures var i' := I2c.Obey(i, p); Extends(i.log, i.ram, i'.log, i'.ram)
  {
    hide Extends, Apply;
    NothingAdded(i.log, i.ram);
    var a := I2c.RamAddress(i.rxBuf);
    OneAdded(i.log, i.ram, Jumped(a));
    if i.rxBuf[I2c.CMD_TYPE] == I2c.LOAD_MEMORY_CMD {
      OneAdded(i.log, i.ram, Wrote(a, I2c.Payload(p, i.rxBuf)));
    }
  }

  lemma I2cExtends(i: I2c.Machine, p: I2c.Poll)
    requires i.Valid() && p.Possible() && i.flow == Running
    ensures var i' := I2c.Step(i, p); Extends(i.log, i.ram, i'.log, i'.ram)
  {
    hide Extends, Apply, I2c.Obey, I2c.Passes;
    NothingAdded(i.log, i.ram);
    OneAdded(i.log, i.ram, Told(I2c.IS_READY_CHECK_RSP_YES));
    OneAdded(i.log, i.ram, Told(I2c.CORRUPTED_FRAME_RCVD));
    if p.waiting && p.msg == I2c.NEW_FRAME_READY_BYTE {
      var m1 := i.(stopMsg := true, stopUart := true, rxBuf := p.fifo + i.rxBuf[|p.fifo|..]);
      ObeyExtends(m1, p);
      var m2 := I2c.Obey(m1, p);
      OneAdded(m2.log, m2.ram, Told(I2c.GOOD_FRAME_RCVD));
      var told := Told(I2c.GOOD_FRAME_RCVD);
      AddedTwice(i.log, i.ram, m2.log, m2.ram, m2.log + [told], Apply(m2.ram, told));
    }
  }

  /** RAM is what the logged effects of the one active channel make of it. */
  ghost predicate Accounted(m: Main, ram0: Ram) {
    && Inv(m)
    && (m.stopI2c ==> m.i2cLog == [] && m.ram == Replay(ram0, m.uartLog))
    && (!m.stopI2c ==> m.uartLog == [] && m.ram == Replay(ram0, m.i2cLog))
  }

  lemma ExtendsReplay(ram0: Ram, log: seq<Event>, ram: Ram, log': seq<Event>, ram': Ram)
    requires ram == Replay(ram0, log) && Extends(log, ram, log', ram')
    ensures ram' == Replay(ram0, log')
  {
    assert log' == log + log'[|log|..];
    ReplayConcat(ram0, log, log'[|log|..]);
  }

  lemma UartAccounted(m: Main, c: Option<uint8>, ram0: Ram)
    requires Accounted(m, ram0) && m.flow == Running
    ensures Accounted(PollUart(m, c), ram0)
  {
    hide Uart.Step, Uart.InBounds, Replay;
    UartKeepsInv(m, c);
    if !m.stopUart && c.Some? {
      var u := m.UartView();
      UartExtends(u, c.value);
      UartFlags(u, c.value);
      if m.stopI2c {
        ExtendsReplay(ram0, m.uartLog, m.ram, Uart.Step(u, c.value).log, Uart.Step(u, c.value).ram);
      } else {
        IdleIsSilent(u, c.value);
        if c.value == Uart.CHAR_S {
          assert m.i2cLog == [];
        }
      }
    }
  }

  lemma I2cAccounted(m: Main, p: I2c.Poll, ram0: Ram)
    requires Accounted(m, ram0) && p.Possible()
    ensures Accounted(PollI2c(m, p), ram0)
  {
    hide I2c.Step, Replay;
    I2cKeepsInv(m, p);
    if m.flow == Running && !m.stopI2c {
      I2cExtends(m.I2cView(), p);
      ExtendsReplay(ram0, m.i2cLog, m.ram, I2c.Step(m.I2cView(), p).log, I2c.Step(m.I2cView(), p).ram);
    }
  }

  lemma IterationAccounted(m: Main, x: Input, ram0: Ram)
    requires Accounted(m, ram0) && m.flow == Running && x.i2c.Possible()
    ensures Accounted(Iterate(m, x), ram0)
  {
    hide PollUart, PollI2c, Replay, Uart.InBounds;
    if !x.jtag {
      UartKeepsInv(m, x.uart);
      UartAccounted(m, x.uart, ram0);
      I2cAccounted(PollUart(m, x.uart), x.i2c, ram0);
    }
  }

  lemma {:induction false} RunAccounted(m: Main, xs: seq<Input>, ram0: Ram)
    requires Inv(m) && Accounted(m, ram0) && AllPossible(xs)
    ensures Accounted(Run(m, xs), ram0)
    decreases |xs|
  {
    hide Iterate, Accounted;
    if xs != [] && m.flow == Running {
      IterationKeepsInv(m, xs[0]);
      IterationAccounted(m, xs[0], ram0);
      RunAccounted(Iterate(m, xs[0]), xs[1..], ram0);
    }
  }

  /** Over every run from reset the loaders exclude each other: at most one stop flag
      is set, a live I2C loader means an idle UART machine, and all effects, and so
      all changes of RAM, come from one channel. */
  lemma OneChannel(m: Main, xs: seq<Input>)
    requires Fresh(m) && AllPossible(xs)
    ensures var m' := Run(m, xs);
      && !(m'.stopUart && m'.stopI2c)
      && (!m'.stopI2c ==> m'.uart.phase == Uart.Idle)
      && (m'.uartLog == [] || m'.i2cLog == [])
      && m'.ram == Replay(m.ram, m'.uartLog + m'.i2cLog)
  {
    assert Replay(m.ram, []) == m.ram;
    RunAccounted(m, xs, m.ram);
    var m' := Run(m, xs);
    assert m'.uartLog + [] == m'.uartLog && [] + m'.i2cLog == m'.i2cLog;
  }

  // ----- The loader that was spoken to first runs undisturbed -----

  predicate NoJtag(xs: seq<Input>) {
    forall i :: 0 <= i < |xs| ==> !xs[i].jtag
  }

  function UartPolls(xs: seq<Input>): (ps: seq<Option<uint8>>)
    ensures |ps| == |xs|
  {
    seq(|xs|, i requires 0 <= i < |xs| => xs[i].uart)
  }

  function I2cPolls(xs: seq<Input>): (ps: seq<I2c.Poll>)
    ensures |ps| == |xs|
    ensures AllPossible(xs) ==> I2cTheorems.AllPossible(ps)
  {
    seq(|xs|, i requires 0 <= i < |xs| => xs[i].i2c)
  }

  /** Once the I2C loader is stopped, nothing on the I2C side matters. */
  lemma {:induction false} UartOwns(m: Main, xs: seq<Input>)
    requires Inv(m) && m.stopI2c && AllPossible(xs) && NoJtag(xs)
    ensures Run(m, xs).UartView() == UartRecords.Run(m.UartView(), UartPolls(xs))
    ensures Run(m, xs).i2cLog == m.i2cLog
    decreases |xs|
  {
    hide Uart.Step, I2c.Step, Uart.InBounds;
    if xs != [] && m.flow == Running {
      var x := xs[0];
      IterationKeepsInv(m, x);
      UartKeepsInv(m, x.uart);
      var m1 := PollUart(m, x.uart);
      if x.uart.Some? {
        UartFlags(m.UartView(), x.uart.value);
        Uart.StepInBounds(m.UartView(), x.uart.value);
      }
      assert UartPolls(xs)[1..] == UartPolls(xs[1..]);
      assert Iterate(m, x).UartView() == m1.UartView();
      UartOwns(Iterate(m, x), xs[1..]);
    }
  }

  /** Once the UART loader is stopped, nothing on the UART matters. */
  lemma {:induction false} I2cOwns(m: Main, xs: seq<Input>)
    requires Inv(m) && m.stopUart && AllPossible(xs) && NoJtag(xs)
    ensures Run(m, xs).I2cView() == I2cTheorems.Run(m.I2cView(), I2cPolls(xs))
    ensures Run(m, xs).uartLog == m.uartLog
    decreases |xs|
  {
    hide Uart.Step, I2c.Step, Uart.InBounds;
    if xs != [] && m.flow == Running {
      var x := xs[0];
      IterationKeepsInv(m, x);
      I2cStops(m.I2cView(), x.i2c);
      assert I2cPolls(xs)[1..] == I2cPolls(xs[1..]);
      assert Iterate(m, x).I2cView() == I2c.Step(m.I2cView(), x.i2c);
      I2cOwns(Iterate(m, x), xs[1..]);
    }
  }

  /** Neither loader is spoken to: no 'S' on the UART, though any other character, and no message
      on I2C. */
  predicate Quiet(xs: seq<Input>) {
    forall i :: 0 <= i < |xs| ==> xs[i].uart != Some(Uart.CHAR_S) && !xs[i].i2c.waiting
  }

  lemma QuietStep(m: Main, x: Input)
    requires Fresh(m) && !x.jtag && x.uart != Some(Uart.CHAR_S) && !x.i2c.waiting && x.i2c.Possible()
    ensures var m' := Iterate(m, x);
      Fresh(m') && m'.UartView() == m.UartView() && m'.I2cView() == m.I2cView()
  {
    hide Uart.Step, Uart.InBounds;
    if x.uart.Some? {
      IdleIsSilent(m.UartView(), x.uart.value);
    }
  }

  lemma {:induction false} QuietRun(m: Main, quiet: seq<Input>, rest: seq<Input>)
    requires Fresh(m) && AllPossible(quiet) && AllPossible(rest) && NoJtag(quiet) && Quiet(quiet)
    ensures AllPossible(quiet + rest)
    ensures exists m1 ::
      Fresh(m1) && m1.UartView() == m.UartView() && m1.I2cView() == m.I2cView() && Run(m, quiet + rest) == Run(m1, rest)
    decreases |quiet|
  {
    if quiet == [] {
      assert quiet + rest == rest;
    } else {
      var xs := quiet + rest;
      assert xs[0] == quiet[0] && xs[1..] == quiet[1..] + rest;
      var m' := Iterate(m, quiet[0]);
      QuietStep(m, quiet[0]);
      assert Fresh(m') && m'.UartView() == m.UartView() && m'.I2cView() == m.I2cView();
      QuietRun(m', quiet[1..], rest);
    }
  }

  /** From reset, if the first thing to be heeded is the 'S' of a stream of S-records,
      the run does what the records say and nothing else, whatever the I2C host sends
      from then on. */
  lemma UartSession(m: Main, quiet: seq<Input>, xs: seq<Input>, lines: seq<UartRecords.Line>)
    requires Fresh(m) && AllPossible(quiet) && AllPossible(xs) && NoJtag(quiet) && NoJtag(xs) && Quiet(quiet)
    requires xs != [] && xs[0].uart == Some(Uart.CHAR_S)
    requires UartRecords.AllWellFormed(lines) && UartRecords.Received(UartPolls(xs)) == UartRecords.TextOf(lines)
    ensures AllPossible(quiet + xs)
    ensures var m' := Run(m, quiet + xs); var rs := UartRecords.Records(lines);
      && m'.uartLog == UartRecords.Decode(rs) && m'.i2cLog == []
      && m'.ram == Replay(m.ram, UartRecords.Decode(rs))
      && (if UartRecords.SomeLeaves(rs) then m'.flow == Gone else m'.flow == Running && m'.uart.phase == Uart.Idle)
  {
    hide Uart.Step, I2c.Step, Uart.InBounds, UartRecords.Run, UartRecords.Decode, UartRecords.SomeLeaves;
    QuietRun(m, quiet, xs);
    var m1 :| Fresh(m1) && m1.UartView() == m.UartView() && Run(m, quiet + xs) == Run(m1, xs);
    FirstIsUart(m1, xs);
    UartRecords.PollsRead(m1.UartView(), lines, UartPolls(xs));
  }

  lemma FirstIsUart(m: Main, xs: seq<Input>)
    requires Fresh(m) && AllPossible(xs) && NoJtag(xs) && xs != [] && xs[0].uart == Some(Uart.CHAR_S)
    ensures Run(m, xs).UartView() == UartRecords.Run(m.UartView(), UartPolls(xs))
    ensures Run(m, xs).i2cLog == []
  {
    hide Uart.Step, I2c.Step, Uart.InBounds;
    var x := xs[0];
    IterationKeepsInv(m, x);
    IdleIsSilent(m.UartView(), Uart.CHAR_S);
    Uart.StepInBounds(m.UartView(), Uart.CHAR_S);
    var m1 := Iterate(m, x);
    UartOwns(m1, xs[1..]);
    assert UartPolls(xs)[1..] == UartPolls(xs[1..]);
  }

  /** From reset, if the I2C host is the first to be heard, the run does what its
      frames say and nothing else, whatever arrives on the UART from then on. */
  lemma I2cSession(m: Main, quiet: seq<Input>, xs: seq<Input>)
    requires Fresh(m) && AllPossible(quiet) && AllPossible(xs) && NoJtag(quiet) && NoJtag(xs) && Quiet(quiet)
    requires xs != [] && xs[0].i2c.waiting && xs[0].uart != Some(Uart.CHAR_S)
    requires I2cTheorems.AllOrderly(I2cPolls(xs))
    ensures AllPossible(quiet + xs)
    ensures var m' := Run(m, quiet + xs); var events := I2cTheorems.SessionEffects(m.useCrc, I2cPolls(xs));
      && m'.i2cLog == events && m'.uartLog == [] && m'.ram == Replay(m.ram, events)
      && m'.flow == if I2cTheorems.Ends(events) then Gone else Running
  {
    hide Uart.Step, I2c.Step, Uart.InBounds, I2cTheorems.Run, I2cTheorems.SessionEffects;
    QuietRun(m, quiet, xs);
    var m1 :| Fresh(m1) && m1.I2cView() == m.I2cView() && Run(m, quiet + xs) == Run(m1, xs);
    FirstIsI2c(m1, xs);
    I2cTheorems.SessionRead(m1.I2cView(), I2cPolls(xs));
    var events := I2cTheorems.SessionEffects(m.useCrc, I2cPolls(xs));
    assert [] + events == events;
  }

  lemma FirstIsI2c(m: Main, xs: seq<Input>)
    requires Fresh(m) && AllPossible(xs) && NoJtag(xs)
    requires xs != [] && xs[0].i2c.waiting && xs[0].uart != Some(Uart.CHAR_S)
    ensures Run(m, xs).I2cView() == I2cTheorems.Run(m.I2cView(), I2cPolls(xs))
    ensures Run(m, xs).uartLog == []
  {
    hide I2c.Step, Iterate, Uart.InBounds;
    IterationKeepsInv(m, xs[0]);
    MessageStep(m, xs[0]);
    I2cOwns(Iterate(m, xs[0]), xs[1..]);
    assert I2cPolls(xs)[1..] == I2cPolls(xs[1..]);
  }

  /** The iteration that finds the first message. */
  lemma MessageStep(m: Main, x: Input)
    requires Fresh(m) && !x.jtag && x.i2c.waiting && x.uart != Some(Uart.CHAR_S) && x.i2c.Possible()
    ensures var m' := Iterate(m, x);
      m'.I2cView() == I2c.Step(m.I2cView(), x.i2c) && m'.uartLog == [] && m'.stopUart
  {
    hide I2c.Step, Uart.Step, Uart.InBounds;
    if x.uart.Some? {
      IdleIsSilent(m.UartView(), x.uart.value);
    }
    WaitingStops(m.I2cView(), x.i2c);
  }

  lemma WaitingStops(i: I2c.Machine, p: I2c.Poll)
    requires i.Valid() && p.Possible() && i.flow == Running && p.waiting
    ensures I2c.Step(i, p).stopUart
  {
  }

  // ----- Leaving by JTAG, and the invitations -----

  /** A JTAG request ends the run where it stands: RAM and both logs are those of the iterations
      before it. */
  lemma {:induction false} JtagEnds(m: Main, xs: seq<Input>, k: nat)
    requires Inv(m) && AllPossible(xs) && k < |xs| && xs[k].jtag
    requires Run(m, xs[..k]).flow == Running
    ensures Run(m, xs) == Run(m, xs[..k]).(flow := Gone)
    decreases k
  {
    hide PollUart, PollI2c, Count;
    if k > 0 {
      IterationKeepsInv(m, xs[0]);
      assert xs[..k][0] == xs[0] && xs[..k][1..] == xs[1..][..k - 1];
      JtagEnds(Iterate(m, xs[0]), xs[1..], k - 1);
    } else {
      assert Run(m.(flow := Gone), xs[1..]) == m.(flow := Gone);
    }
  }

  /** One invitation every 90000 iterations, as long as nobody speaks. */
  lemma {:induction false} InvitationsCount(m: Main, xs: seq<Input>)
    requires Fresh(m) && AllPossible(xs) && NoJtag(xs) && Quiet(xs) && m.bootsel < 90000
    ensures var n := m.bootsel + |xs|;
      Run(m, xs).invitations == m.invitations + n / 90000 && Run(m, xs).bootsel == n % 90000
    decreases |xs|
  {
    if xs != [] {
      var m' := Iterate(m, xs[0]);
      QuietStep(m, xs[0]);
      OneCounted(m, xs[0]);
      hide Iterate, Fresh;
      InvitationsCount(m', xs[1..]);
      Carry(m.bootsel + 1, |xs| - 1);
    }
  }

  lemma OneCounted(m: Main, x: Input)
    requires Fresh(m) && !x.jtag && x.uart != Some(83) && !x.i2c.waiting && x.i2c.Possible()
    ensures var m' := Iterate(m, x);
      if m.bootsel + 1 < 90000 then m'.bootsel == m.bootsel + 1 && m'.invitations == m.invitations
      else m'.bootsel == 0 && m'.invitations == m.invitations + 1
  {
    hide Uart.Step, Uart.InBounds;
    if x.uart.Some? {
      IdleIsSilent(m.UartView(), x.uart.value);
    }
  }

  lemma Carry(b: nat, n: nat)
    requires b <= 90000
    ensures b == 90000 ==> (b + n) / 90000 == n / 90000 + 1 && (b + n) % 90000 == n % 90000
  {
  }

  /** Once a message has silenced the invitations there are no more. */
  lemma {:induction false} InvitationsStop(m: Main, xs: seq<Input>)
    requires Inv(m) && m.stopMsg && AllPossible(xs)
    ensures Run(m, xs).invitations == m.invitations && Run(m, xs).stopMsg
    decreases |xs|
  {
    if xs != [] && m.flow == Running {
      IterationKeepsInv(m, xs[0]);
      StaysSilent(m, xs[0]);
      hide Iterate, Inv;
      InvitationsStop(Iterate(m, xs[0]), xs[1..]);
    }
  }

  lemma StaysSilent(m: Main, x: Input)
    requires Inv(m) && m.flow == Running && x.i2c.Possible() && m.stopMsg
    ensures Iterate(m, x).stopMsg && Iterate(m, x).invitations == m.invitations
  {
    hide Uart.Step, Uart.InBounds, I2c.Step;
    if !x.jtag {
      UartKeepsInv(m, x.uart);
      if x.uart.Some? {
        UartFlags(m.UartView(), x.uart.value);
      }
      var m1 := PollUart(m, x.uart);
      assert m1.stopMsg && m1.invitations == m.invitations;
      if m1.flow == Running && !m1.stopI2c {
        I2cStops(m1.I2cView(), x.i2c);
      }
    }
  }

  /** An 'S' on the UART or any message on I2C does that, from the very iteration that finds it. */
  lemma SpokenTo(m: Main, xs: seq<Input>)
    requires Fresh(m) && AllPossible(xs) && xs != [] && (xs[0].uart == Some(83) || xs[0].i2c.waiting)
    ensures Run(m, xs).invitations == m.invitations
  {
    var x := xs[0];
    IterationKeepsInv(m, x);
    if x.jtag {
      assert Run(Iterate(m, x), xs[1..]) == Iterate(m, x);
    } else {
      Silenced(m, x);
      hide Iterate, Inv;
      InvitationsStop(Iterate(m, x), xs[1..]);
    }
  }

  lemma Silenced(m: Main, x: Input)
    requires Fresh(m) && !x.jtag && x.i2c.Possible() && (x.uart == Some(83) || x.i2c.waiting)
    ensures Iterate(m, x).stopMsg && Iterate(m, x).invitations == m.invitations
  {
    hide Uart.Step, Uart.InBounds, I2c.Step;
    if x.uart.Some? {
      IdleIsSilent(m.UartView(), x.uart.value);
    }
    UartKeepsInv(m, x.uart);
    var m1 := PollUart(m, x.uart);
    if !m1.stopI2c {
      I2cStops(m1.I2cView(), x.i2c);
      WaitingSilences(m1.I2cView(), x.i2c);
    }
  }

  lemma WaitingSilences(i: I2c.Machine, p: I2c.Poll)
    requires i.Valid() && p.Possible() && i.flow == Running && p.waiting
    ensures I2c.Step(i, p).stopMsg
  {
  }
}

/** What the serial loaders do to the outside world, and how a run can end. */
module Effects {
  import opened Words
  import opened Memory

  /** A store of a run of bytes, a jump out of the loader, an answer on the UART,
      or a code written to the I2C message register. */
  datatype Event =
    | Wrote(addr: uint32, bytes: seq<uint8>)
    | Jumped(target: uint32)
    | SaidOk
    | SaidNotOk
    | Told(code: uint8)

  /** A run continues, or ends in a jump, or leaves the C semantics by a store
      past the end of a buffer. */
  datatype Flow = Running | Gone | OutOfBounds

  function Apply(ram: Ram, e: Event): Ram {
    if e.Wrote? then Blit(ram, e.addr, e.bytes) else ram
  }

  /** RAM after a list of effects. */
  function Replay(ram: Ram, events: seq<Event>): Ram
    decreases |events|
  {
    if events == [] then ram else Replay(Apply(ram, events[0]), events[1..])
  }

  lemma ReplayOne(ram: Ram, e: Event)
    ensures Replay(ram, [e]) == Apply(ram, e)
  {
    assert [e][1..] == [];
  }

  lemma {:induction false} ReplayConcat(ram: Ram, a: seq<Event>, b: seq<Event>)
    ensures Replay(ram, a + b) == Replay(Replay(ram, a), b)
    decreases |a|
  {
    if a == [] {
      assert a + b == b;
    } else {
      assert (a + b)[0] == a[0] && (a + b)[1..] == a[1..] + b;
      ReplayConcat(Apply(ram, a[0]), a[1..], b);
    }
  }
}

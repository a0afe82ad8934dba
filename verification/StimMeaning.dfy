/** The binary image of boot_code/stim_utils.py, from the program headers of the ELF files to the
    bytes of the written file. */
module StimMeaning {
  import opened Words
  import opened Decimals
  import opened Stim

  /** All headers of all files, in order. */
  function Headers(binaries: seq<seq<Segment>>): seq<Segment> {
    if binaries == [] then [] else Headers(binaries[..|binaries| - 1]) + binaries[|binaries| - 1]
  }

  /** The header is one to load, and its file bytes lie inside some area if there are any areas. */
  predicate Loads(s: Segment, areas: seq<Area>) {
    && s.isLoad
    && (areas == []
        || exists k :: 0 <= k < |areas| && areas[k].start <= s.paddr && s.paddr + |s.data| <= areas[k].end)
  }

  /** One past the last byte of a header in memory. */
  function Top(s: Segment): nat {
    if |s.data| < s.memsz then s.paddr + s.memsz else s.paddr + |s.data|
  }

  /** Some loaded header has a byte at the address. */
  ghost predicate Filled(segments: seq<Segment>, areas: seq<Area>, a: nat) {
    exists n :: 0 <= n < |segments| && Fills(segments[n], areas, a)
  }

  predicate Fills(s: Segment, areas: seq<Area>, a: nat) {
    Loads(s, areas) && s.paddr <= a < Top(s)
  }

  predicate NoOverlap(segments: seq<Segment>, areas: seq<Area>) {
    forall m, n :: 0 <= m < n < |segments| && Loads(segments[m], areas) && Loads(segments[n], areas) ==>
      Top(segments[m]) <= segments[n].paddr || Top(segments[n]) <= segments[m].paddr
  }

  // ----- The chunks -----

  lemma {:induction false} FilesTogether(binaries: seq<seq<Segment>>, areas: seq<Area>)
    ensures AllChunks(binaries, areas) == FileChunks(Headers(binaries), areas)
  {
    if binaries != [] {
      FilesTogether(binaries[..|binaries| - 1], areas);
      FilesJoined(Headers(binaries[..|binaries| - 1]), binaries[|binaries| - 1], areas);
    }
  }

  lemma {:induction false} FilesJoined(a: seq<Segment>, b: seq<Segment>, areas: seq<Area>)
    ensures FileChunks(a + b, areas) == FileChunks(a, areas) + FileChunks(b, areas)
    decreases |b|
  {
    hide SegmentChunks;
    if b == [] {
      assert a + b == a;
    } else {
      var init := b[..|b| - 1];
      FilesJoined(a, init, areas);
      assert (a + b)[..|a + b| - 1] == a + init;
    }
  }

  /** The chunk is the file bytes of a header, or the zeros after them. */
  predicate IsPart(c: Chunk, s: Segment, areas: seq<Area>) {
    && Loads(s, areas)
    && (|| c == Chunk(s.paddr, s.data)
        || (|s.data| < s.memsz && c.base == s.paddr + |s.data| && |c.data| == s.memsz - |s.data|
            && forall i :: 0 <= i < |c.data| ==> c.data[i] == 0))
  }

  lemma PartsOf(s: Segment, areas: seq<Area>)
    ensures forall c :: IsPart(c, s, areas) <==> c in SegmentChunks(s, areas)
    ensures Disjoint(SegmentChunks(s, areas))
  {
    var chunks := SegmentChunks(s, areas);
    assert Loads(s, areas) <==> s.isLoad && Admitted(s, areas) by {
      if areas != [] && Loads(s, areas) {
        var k :| 0 <= k < |areas| && areas[k].start <= s.paddr && s.paddr + |s.data| <= areas[k].end;
        assert areas[k].Holds(s.paddr, |s.data|);
      }
      if areas != [] && Admitted(s, areas) {
        var k :| 0 <= k < |areas| && areas[k].Holds(s.paddr, |s.data|);
      }
    }
    forall c
      ensures IsPart(c, s, areas) <==> c in chunks
    {
      if IsPart(c, s, areas) && c != Chunk(s.paddr, s.data) {
        assert c.data == ZeroBytes(s.memsz - |s.data|);
        assert chunks[1] == c;
      } else if IsPart(c, s, areas) {
        assert chunks[0] == c;
      }
    }
  }

  lemma {:induction false} PartsInList(segments: seq<Segment>, areas: seq<Area>, c: Chunk)
    ensures c in FileChunks(segments, areas)
       <==> exists n :: 0 <= n < |segments| && IsPart(c, segments[n], areas)
  {
    hide IsPart, SegmentChunks;
    if segments != [] {
      var init, last := segments[..|segments| - 1], segments[|segments| - 1];
      PartsInList(init, areas, c);
      PartsOf(last, areas);
      assert segments == init + [last];
      if c in FileChunks(segments, areas) && c !in FileChunks(init, areas) {
        assert IsPart(c, segments[|segments| - 1], areas);
      }
    }
  }

  lemma PartsApart(c: Chunk, s: Segment, d: Chunk, t: Segment, areas: seq<Area>)
    requires IsPart(c, s, areas) && IsPart(d, t, areas) && (Top(s) <= t.paddr || Top(t) <= s.paddr)
    ensures Apart(c, d)
  {
  }

  lemma {:induction false} PartsDisjoint(segments: seq<Segment>, areas: seq<Area>)
    requires NoOverlap(segments, areas)
    ensures Disjoint(FileChunks(segments, areas))
  {
    hide SegmentChunks, Loads, Apart, Top;
    if segments != [] {
      var init, last := segments[..|segments| - 1], segments[|segments| - 1];
      PartsDisjoint(init, areas);
      PartsOf(last, areas);
      var a, b := FileChunks(init, areas), SegmentChunks(last, areas);
      forall i, j | 0 <= i < |a| && 0 <= j < |b|
        ensures Apart(a[i], b[j])
      {
        PartsInList(init, areas, a[i]);
        var n :| 0 <= n < |init| && IsPart(a[i], init[n], areas);
        assert b[j] in b && init[n] == segments[n];
        PartsApart(a[i], init[n], b[j], last, areas);
      }
      BothDisjoint(a, b);
    }
  }

  lemma BothDisjoint(a: seq<Chunk>, b: seq<Chunk>)
    requires Disjoint(a) && Disjoint(b)
    requires forall i, j :: 0 <= i < |a| && 0 <= j < |b| ==> Apart(a[i], b[j])
    ensures Disjoint(a + b)
  {
    hide Apart;
  }

  /** The addresses of the chunks are those the loaded headers fill. */
  lemma FilledIffAddress(segments: seq<Segment>, areas: seq<Area>, a: nat)
    ensures Filled(segments, areas, a) <==> a in AllAddresses(FileChunks(segments, areas))
  {
    hide Loads, FileChunks, AllAddresses;
    var chunks := FileChunks(segments, areas);
    CoveredIffAddress(chunks, a);
    if Covered(chunks, a) {
      var i :| 0 <= i < |chunks| && chunks[i].Covers(a);
      PartsInList(segments, areas, chunks[i]);
      var n :| 0 <= n < |segments| && IsPart(chunks[i], segments[n], areas);
      assert Fills(segments[n], areas, a);
    }
    if n :| 0 <= n < |segments| && Fills(segments[n], areas, a) {
      var i := CoveringPart(segments, areas, n, a);
    }
  }

  /** The chunk that covers an address of a loaded header. */
  lemma CoveringPart(segments: seq<Segment>, areas: seq<Area>, n: nat, a: nat) returns (i: nat)
    requires n < |segments| && Fills(segments[n], areas, a)
    ensures var chunks, s := FileChunks(segments, areas), segments[n];
      && i < |chunks| && chunks[i].Covers(a)
      && chunks[i].data[a - chunks[i].base] == if a < s.paddr + |s.data| then s.data[a - s.paddr] else 0
  {
    hide FileChunks, Loads;
    var s := segments[n];
    var c := if a < s.paddr + |s.data| then Chunk(s.paddr, s.data)
             else Chunk(s.paddr + |s.data|, ZeroBytes(s.memsz - |s.data|));
    assert IsPart(c, s, areas);
    PartsInList(segments, areas, c);
    i :| 0 <= i < |FileChunks(segments, areas)| && FileChunks(segments, areas)[i] == c;
  }

  // ----- The file -----

  /** The file from address lo on: the file bytes of every loaded header, the zeros that its size in
      memory asks for, and zeros where no header has a byte. */
  ghost predicate HoldsHeaders(file: seq<Word>, lo: nat, segments: seq<Segment>, areas: seq<Area>) {
    && (forall a: nat :: Filled(segments, areas, a) ==> lo <= a < lo + |file|)
    && (file != [] ==> Filled(segments, areas, lo) && Filled(segments, areas, lo + |file| - 1))
    && (forall n, a: nat :: 0 <= n < |segments| && Fills(segments[n], areas, a) ==>
          lo <= a < lo + |file| && Value(file[a - lo]) == ByteOfHeader(segments[n], a))
    && (forall a: nat :: lo <= a < lo + |file| && !Filled(segments, areas, a) ==> Value(file[a - lo]) == 0)
  }

  function ByteOfHeader(s: Segment, a: nat): nat {
    if s.paddr <= a < s.paddr + |s.data| then s.data[a - s.paddr] else 0
  }

  lemma ByteValue(b: uint8)
    ensures Value(Bits(b, 8)) == b
  {
    PowersOfTwo();
    ValueOfBits(b, 8);
  }

  lemma FileHolds(file: seq<Word>, lo: nat, hi: nat, segments: seq<Segment>, areas: seq<Area>)
    requires NoOverlap(segments, areas)
    requires IsDenseFrom(file, StoreAll(map[], FileChunks(segments, areas), 1), lo, hi)
    ensures HoldsHeaders(file, lo, segments, areas)
  {
    hide FileChunks, StoreAll, Loads, Value, Bits, AllAddresses, Filled, Disjoint;
    var chunks := FileChunks(segments, areas);
    PartsDisjoint(segments, areas);
    AddressesStored(chunks);
    forall a: nat
      ensures Filled(segments, areas, a) <==> a in StoreAll(map[], chunks, 1)
    {
      FilledIffAddress(segments, areas, a);
    }
    forall n, a: nat | 0 <= n < |segments| && Fills(segments[n], areas, a)
      ensures lo <= a <= hi && Value(file[a - lo]) == ByteOfHeader(segments[n], a)
    {
      var i := CoveringPart(segments, areas, n, a);
      FileIsUnion(chunks, file, lo, hi, i, a);
      ByteValue(chunks[i].data[a - chunks[i].base]);
    }
    forall a: nat | lo <= a <= hi && !Filled(segments, areas, a)
      ensures Value(file[a - lo]) == 0
    {
      CoveredIffAddress(chunks, a);
      FileGapsAreZero(chunks, file, lo, hi, a);
      ValueZeros(8);
    }
  }

  /** Generating the binary of some ELF files. The addresses the headers fill must be in the order of
      their decimal spellings, and the headers must not overlap. */
  method GenBinary(g: Generator, ghost addresses: set<nat>) returns (file: seq<Word>, ghost lo: nat)
    requires forall a: nat :: a in addresses <==> Filled(Headers(g.binaries), g.areas, a)
    requires OrdersAgree(addresses) && NoOverlap(Headers(g.binaries), g.areas)
    modifies g`mem
    ensures HoldsHeaders(file, lo, Headers(g.binaries), g.areas)
  {
    hide OrdersAgree, NoOverlap, AllChunks, FileChunks, Headers, Filled, HoldsHeaders, IsDenseFrom, StoreAll;
    hide WellFormed;
    ghost var segments := Headers(g.binaries);
    ghost var chunks := FileChunks(segments, g.areas);
    FilesTogether(g.binaries, g.areas);
    forall a: nat
      ensures a in addresses <==> a in AllAddresses(chunks)
    {
      FilledIffAddress(segments, g.areas, a);
    }
    assert addresses == AllAddresses(chunks);
    file := g.GenStimBin();
    lo := 0;
    if g.mem != map[] {
      ghost var l, hi :| IsDenseFrom(file, g.mem, l, hi);
      lo := l;
      FileHolds(file, l, hi, segments, g.areas);
    } else {
      NothingFilled(segments, g.areas);
    }
  }

  lemma NothingFilled(segments: seq<Segment>, areas: seq<Area>)
    requires StoreAll(map[], FileChunks(segments, areas), 1) == map[]
    ensures HoldsHeaders([], 0, segments, areas)
  {
    hide FileChunks, StoreAll, Fills, AllAddresses;
    AddressesStored(FileChunks(segments, areas));
    forall a: nat
      ensures !Filled(segments, areas, a)
    {
      FilledIffAddress(segments, areas, a);
    }
    forall n, a: nat | 0 <= n < |segments|
      ensures !Fills(segments[n], areas, a)
    {
      assert !Filled(segments, areas, a);
    }
  }
}

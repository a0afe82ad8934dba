/** The stimuli generator of boot_code/stim_utils.py: byte segments are packed into
    memory words, and the words written out. A word of `width` bytes is a bit vector
    of 8 * width bits; a byte is one of 8 bits. */
module Stim {
  import opened Decimals
  import opened Words

  type Memory = map<nat, Word>

  /** A program header: where its bytes go, and how long it is in memory. */
  datatype Segment = Segment(isLoad: bool, paddr: nat, data: seq<uint8>, memsz: nat)

  /** A window of the target memory; with no windows everything is loaded. */
  datatype Area = Area(start: nat, end: nat) {
    predicate Holds(addr: nat, size: nat) {
      start <= addr && addr + size <= end
    }
  }

  /** A run of bytes at an address. */
  datatype Chunk = Chunk(base: nat, data: seq<uint8>) {
    predicate Covers(a: int) {
      base <= a < base + |data|
    }
  }

  // ----- Words and bytes -----

  predicate WidthOk(width: nat) {
    width == 1 || width == 8
  }

  /** The bits of a run of bytes, little-endian. */
  function DataBits(data: seq<uint8>): (w: Word)
    ensures |w| == 8 * |data|
  {
    seq(8 * |data|, p requires 0 <= p < 8 * |data| => Bits(data[p / 8], 8)[p % 8])
  }

  ghost predicate WellFormed(mem: Memory, width: nat)
    requires WidthOk(width)
  {
    forall k :: k in mem ==> k % width == 0 && |mem[k]| == 8 * width
  }

  /** The byte at an address: zero where no word was stored. */
  function ByteAt(mem: Memory, width: nat, a: nat): (b: Word)
    requires WidthOk(width) && WellFormed(mem, width)
    ensures |b| == 8
  {
    var k := WordOf(a, width);
    if k in mem then ByteOf(mem[k], Offset(a, width)) else Zeros(8)
  }

  /** The aligned address of the word that holds the byte at a: a & ~(width - 1). */
  function WordOf(a: nat, width: nat): (k: nat)
    requires WidthOk(width)
    ensures k <= a
  {
    a - a % width
  }

  /** Where in its word the byte at a lies. */
  function Offset(a: nat, width: nat): (j: nat)
    requires WidthOk(width)
    ensures j < width && WordOf(a, width) + j == a
  {
    a % width
  }

  /** Byte j of a word. */
  function ByteOf(w: Word, j: nat): (b: Word)
    requires 8 * j + 8 <= |w|
    ensures |b| == 8
  {
    w[8 * j..8 * j + 8]
  }

  /** value & ~(((1 << width) - 1) << (8 * shift)): the mask is `width` bits wide. */
  function ClearBits(value: Word, width: nat, shift: nat): (w: Word)
    ensures |w| == |value|
  {
    seq(|value|, p requires 0 <= p < |value| => value[p] && !(8 * shift <= p < 8 * shift + width))
  }

  /** value | (data << (8 * shift)) */
  function OrBytes(value: Word, shift: nat, data: seq<uint8>): (w: Word)
    requires 8 * (shift + |data|) <= |value|
    ensures |w| == |value|
  {
    seq(|value|, p requires 0 <= p < |value| =>
      value[p] || (8 * shift <= p < 8 * (shift + |data|) && DataBits(data)[p - 8 * shift]))
  }

  /** Every address in the range reads as zero. */
  ghost predicate Vacant(mem: Memory, width: nat, base: nat, size: nat)
    requires WidthOk(width) && WellFormed(mem, width)
  {
    forall a :: base <= a < base + size ==> ByteAt(mem, width, a) == Zeros(8)
  }

  /** The first n bytes of the data have been stored, and nothing else changed. */
  ghost predicate Stored(before: Memory, after: Memory, width: nat, base: nat, data: seq<uint8>, n: nat)
    requires WidthOk(width) && WellFormed(before, width) && WellFormed(after, width) && n <= |data|
  {
    forall a: nat ::
      ByteAt(after, width, a) == if base <= a < base + n then Bits(data[a - base], 8) else ByteAt(before, width, a)
  }

  /** How many bytes go to the first word. */
  function WordShare(base: nat, size: nat, width: nat): (n: nat)
    requires WidthOk(width)
    ensures n <= size && Offset(base, width) + n <= width && (size > 0 ==> n > 0)
  {
    if width - Offset(base, width) > size then size else width - Offset(base, width)
  }

  function NewWord(mem: Memory, base: nat, data: seq<uint8>, width: nat): (w: Word)
    requires WidthOk(width) && WellFormed(mem, width) && Offset(base, width) + |data| <= width
    ensures |w| == 8 * width
  {
    var k, shift := WordOf(base, width), Offset(base, width);
    OrBytes(ClearBits(if k in mem then mem[k] else Zeros(8 * width), width, shift), shift, data)
  }

  // ----- One word -----

  lemma DataBit(data: seq<uint8>, i: nat, q: nat)
    requires i < |data| && q < 8
    ensures DataBits(data)[8 * i + q] == Bits(data[i], 8)[q]
  {
    hide Bits;
    assert (8 * i + q) / 8 == i && (8 * i + q) % 8 == q;
  }

  /** int.from_bytes(data, byteorder='little') */
  function LittleEndian(data: seq<uint8>): nat {
    if data == [] then 0 else data[0] as nat + 256 * LittleEndian(data[1..])
  }

  /** The bits or-ed into a word are those of the little-endian number. */
  lemma {:induction false} DataBitsMean(data: seq<uint8>)
    ensures Value(DataBits(data)) == LittleEndian(data)
  {
    hide Bits, Value;
    if data == [] {
      assert DataBits(data) == [];
      assert Value([]) == 0 by { EmptyValue(); }
    } else {
      var head, rest := Bits(data[0], 8), DataBits(data[1..]);
      forall p | 0 <= p < 8 * |data|
        ensures DataBits(data)[p] == (head + rest)[p]
      {
        if p >= 8 {
          assert (p - 8) / 8 == p / 8 - 1 && (p - 8) % 8 == p % 8;
        }
      }
      assert DataBits(data) == head + rest;
      DataBitsMean(data[1..]);
      ValueConcat(head, rest);
      PowersOfTwo();
      ValueOfBits(data[0], 8);
    }
  }

  lemma EmptyValue()
    ensures Value([]) == 0
  {
  }

  /** Storing bytes where the word holds zeros puts them there and keeps the rest. */
  lemma NewWordByte(value: Word, width: nat, shift: nat, data: seq<uint8>, j: nat)
    requires WidthOk(width) && |value| == 8 * width && j < width
    requires data != [] && shift + |data| <= width
    requires forall i :: shift <= i < shift + |data| ==> ByteOf(value, i) == Zeros(8)
    ensures ByteOf(OrBytes(ClearBits(value, width, shift), shift, data), j)
         == if shift <= j < shift + |data| then Bits(data[j - shift], 8) else ByteOf(value, j)
  {
    hide Bits, DataBits;
    var w := OrBytes(ClearBits(value, width, shift), shift, data);
    if shift <= j < shift + |data| {
      forall q | 0 <= q < 8
        ensures ByteOf(w, j)[q] == Bits(data[j - shift], 8)[q]
      {
        assert !ByteOf(value, j)[q];
        DataBit(data, j - shift, q);
      }
    } else {
      forall q | 0 <= q < 8
        ensures ByteOf(w, j)[q] == ByteOf(value, j)[q]
      {
      }
    }
  }

  lemma WordStored(mem: Memory, width: nat, base: nat, data: seq<uint8>)
    requires WidthOk(width) && WellFormed(mem, width)
    requires data != [] && Offset(base, width) + |data| <= width && Vacant(mem, width, base, |data|)
    ensures var mem' := mem[WordOf(base, width) := NewWord(mem, base, data, width)];
      WellFormed(mem', width) && Stored(mem, mem', width, base, data, |data|)
  {
    hide OrBytes, ClearBits, Bits, Offset, WordOf, WidthOk;
    var k, shift := WordOf(base, width), Offset(base, width);
    Aligned(base, width, 0);
    var mem' := mem[k := NewWord(mem, base, data, width)];
    var value := if k in mem then mem[k] else Zeros(8 * width);
    forall i | shift <= i < shift + |data|
      ensures ByteOf(value, i) == Zeros(8)
    {
      Aligned(base, width, i);
      assert ByteAt(mem, width, k + i) == Zeros(8);
    }
    forall a: nat
      ensures ByteAt(mem', width, a)
           == if base <= a < base + |data| then Bits(data[a - base], 8) else ByteAt(mem, width, a)
    {
      SameWord(base, width, |data|, a);
      if WordOf(a, width) == k {
        NewWordByte(value, width, shift, data, Offset(a, width));
      }
    }
  }

  lemma Aligned(base: nat, width: nat, i: nat)
    requires WidthOk(width) && i < width
    ensures var k := WordOf(base, width);
      k % width == 0 && WordOf(k + i, width) == k && Offset(k + i, width) == i
  {
    if width == 8 {
      var k := base - base % 8;
      assert k % 8 == 0;
      assert (k + i) % 8 == i;
    }
  }

  /** The bytes of a chunk that fits one word lie in that word. */
  lemma SameWord(base: nat, width: nat, n: nat, a: nat)
    requires WidthOk(width) && Offset(base, width) + n <= width
    ensures base <= a < base + n ==> WordOf(a, width) == WordOf(base, width)
  {
  }

  // ----- Whole chunks and whole files -----

  /** The memory after storing the bytes of a chunk, word by word. */
  function Spread(mem: Memory, base: nat, data: seq<uint8>, width: nat): (mem': Memory)
    requires WidthOk(width) && WellFormed(mem, width)
    ensures WellFormed(mem', width)
    decreases |data|
  {
    if data == [] then mem
    else
      Aligned(base, width, 0);
      var n := WordShare(base, |data|, width);
      Spread(mem[WordOf(base, width) := NewWord(mem, base, data[..n], width)], base + n, data[n..], width)
  }

  function StoreAll(mem: Memory, chunks: seq<Chunk>, width: nat): (mem': Memory)
    requires WidthOk(width) && WellFormed(mem, width)
    ensures WellFormed(mem', width)
  {
    if chunks == [] then mem
    else
      var last := chunks[|chunks| - 1];
      Spread(StoreAll(mem, chunks[..|chunks| - 1], width), last.base, last.data, width)
  }

  /** [0] * n */
  function ZeroBytes(n: nat): seq<uint8> {
    seq(n, _ => 0)
  }

  /** What a program header contributes: its bytes, then the zeros up to its size in memory. */
  function SegmentChunks(s: Segment, areas: seq<Area>): seq<Chunk> {
    if !s.isLoad || !Admitted(s, areas) then []
    else if |s.data| < s.memsz then
      [Chunk(s.paddr, s.data), Chunk(s.paddr + |s.data|, ZeroBytes(s.memsz - |s.data|))]
    else [Chunk(s.paddr, s.data)]
  }

  predicate Admitted(s: Segment, areas: seq<Area>) {
    areas == [] || exists k :: 0 <= k < |areas| && areas[k].Holds(s.paddr, |s.data|)
  }

  function FileChunks(segments: seq<Segment>, areas: seq<Area>): seq<Chunk> {
    if segments == [] then []
    else FileChunks(segments[..|segments| - 1], areas) + SegmentChunks(segments[|segments| - 1], areas)
  }

  function AllChunks(binaries: seq<seq<Segment>>, areas: seq<Area>): seq<Chunk> {
    if binaries == [] then []
    else AllChunks(binaries[..|binaries| - 1], areas) + FileChunks(binaries[|binaries| - 1], areas)
  }

  lemma {:induction false} StoreConcat(mem: Memory, a: seq<Chunk>, b: seq<Chunk>, width: nat)
    requires WidthOk(width) && WellFormed(mem, width)
    ensures StoreAll(mem, a + b, width) == StoreAll(StoreAll(mem, a, width), b, width)
    decreases |b|
  {
    hide Spread, WellFormed;
    if b == [] {
      assert a + b == a;
    } else {
      var init := b[..|b| - 1];
      StoreConcat(mem, a, init, width);
      assert (a + b)[..|a + b| - 1] == a + init;
    }
  }

  // ----- The image -----

  predicate Covered(chunks: seq<Chunk>, a: int) {
    exists i :: 0 <= i < |chunks| && chunks[i].Covers(a)
  }

  predicate Disjoint(chunks: seq<Chunk>) {
    forall i, j :: 0 <= i < j < |chunks| ==> Apart(chunks[i], chunks[j])
  }

  predicate Apart(c: Chunk, d: Chunk) {
    c.base + |c.data| <= d.base || d.base + |d.data| <= c.base
  }

  /** The memory reads as the union of the chunks, zero elsewhere. */
  ghost predicate ReadsAs(mem: Memory, width: nat, chunks: seq<Chunk>)
    requires WidthOk(width) && WellFormed(mem, width)
  {
    && (forall i, a: nat {:trigger chunks[i].Covers(a)} ::
          0 <= i < |chunks| && chunks[i].Covers(a) ==>
            ByteAt(mem, width, a) == Bits(chunks[i].data[a - chunks[i].base], 8))
    && (forall a: nat {:trigger ByteAt(mem, width, a)} ::
          !Covered(chunks, a) ==> ByteAt(mem, width, a) == Zeros(8))
  }

  /** Storing a chunk over zeros stores exactly its bytes, whichever words they span. */
  lemma {:induction false} SpreadStored(mem: Memory, base: nat, data: seq<uint8>, width: nat)
    requires WidthOk(width) && WellFormed(mem, width) && Vacant(mem, width, base, |data|)
    ensures Stored(mem, Spread(mem, base, data, width), width, base, data, |data|)
    decreases |data|
  {
    hide ByteAt, WordOf, Offset, NewWord, Bits, WellFormed;
    if data != [] {
      Aligned(base, width, 0);
      var n := WordShare(base, |data|, width);
      WordStored(mem, width, base, data[..n]);
      var next := mem[WordOf(base, width) := NewWord(mem, base, data[..n], width)];
      SpreadStored(next, base + n, data[n..], width);
      StoredTwice(mem, next, Spread(mem, base, data, width), width, base, data, n);
    }
  }

  lemma StoredTwice(m0: Memory, m1: Memory, m2: Memory, width: nat, base: nat, data: seq<uint8>, n: nat)
    requires WidthOk(width) && WellFormed(m0, width) && WellFormed(m1, width) && WellFormed(m2, width)
    requires n <= |data| && Stored(m0, m1, width, base, data[..n], n)
    requires Stored(m1, m2, width, base + n, data[n..], |data| - n)
    ensures Stored(m0, m2, width, base, data, |data|)
  {
    hide ByteAt, Bits, WellFormed, WidthOk;
  }

  /** Chunks that do not overlap, in any order and with words of either width, are the
      byte image the memory holds. */
  lemma {:induction false} ImageIsUnion(chunks: seq<Chunk>, width: nat)
    requires WidthOk(width) && Disjoint(chunks)
    ensures ReadsAs(StoreAll(map[], chunks, width), width, chunks)
  {
    hide Spread, ByteAt, Bits, WidthOk;
    if chunks == [] {
      forall a: nat
        ensures ByteAt(map[], width, a) == Zeros(8)
      {
        EmptyReadsZero(width, a);
      }
    } else {
      var n := |chunks| - 1;
      var init, last := chunks[..n], chunks[n];
      ImageIsUnion(init, width);
      var before := StoreAll(map[], init, width);
      assert Vacant(before, width, last.base, |last.data|) by {
        forall a | last.base <= a < last.base + |last.data|
          ensures ByteAt(before, width, a) == Zeros(8)
        {
          forall i | 0 <= i < n
            ensures !init[i].Covers(a)
          {
            assert Apart(chunks[i], chunks[n]);
          }
        }
      }
      SpreadStored(before, last.base, last.data, width);
      OneMoreChunk(before, StoreAll(map[], chunks, width), chunks, width);
    }
  }

  lemma EmptyMemory(width: nat)
    requires WidthOk(width)
    ensures WellFormed(map[], width) && StoreAll(map[], [], width) == map[]
  {
  }

  lemma EmptyReadsZero(width: nat, a: nat)
    requires WidthOk(width)
    ensures ByteAt(map[], width, a) == Zeros(8)
  {
  }

  lemma OneMoreChunk(before: Memory, after: Memory, chunks: seq<Chunk>, width: nat)
    requires WidthOk(width) && WellFormed(before, width) && WellFormed(after, width)
    requires chunks != [] && Disjoint(chunks)
    requires ReadsAs(before, width, chunks[..|chunks| - 1])
    requires var last := chunks[|chunks| - 1];
      Stored(before, after, width, last.base, last.data, |last.data|)
    ensures ReadsAs(after, width, chunks)
  {
    hide ByteAt, Bits, WidthOk, WellFormed;
    var n := |chunks| - 1;
    var init, last := chunks[..n], chunks[n];
    forall i, a: nat {:trigger chunks[i].Covers(a)} | 0 <= i < |chunks| && chunks[i].Covers(a)
      ensures ByteAt(after, width, a) == Bits(chunks[i].data[a - chunks[i].base], 8)
    {
      if i < n {
        assert init[i].Covers(a) && Apart(chunks[i], chunks[n]);
        assert ByteAt(after, width, a) == ByteAt(before, width, a);
      }
    }
    forall a: nat | !Covered(chunks, a)
      ensures ByteAt(after, width, a) == Zeros(8)
    {
      assert !last.Covers(a);
      assert forall i :: 0 <= i < n ==> init[i] == chunks[i] && !chunks[i].Covers(a);
      assert ByteAt(before, width, a) == Zeros(8);
    }
  }

  /** The byte at a that a target sees once the chunks are packed into words. */
  function Decoded(chunks: seq<Chunk>, width: nat, a: nat): (b: Word)
    requires WidthOk(width)
    ensures |b| == 8
  {
    ByteAt(StoreAll(map[], chunks, width), width, a)
  }

  /** The map of eight-byte words and the map of single bytes decode to the same image. */
  lemma WidthsAgree(chunks: seq<Chunk>, a: nat)
    requires Disjoint(chunks)
    ensures Decoded(chunks, 8, a) == Decoded(chunks, 1, a)
  {
    hide ByteAt, Bits, StoreAll;
    ImageIsUnion(chunks, 1);
    ImageIsUnion(chunks, 8);
    if Covered(chunks, a) {
      var i :| 0 <= i < |chunks| && chunks[i].Covers(a);
    }
  }

  // ----- Overlaps -----

  /** Storing the chunk clears bit q of the byte at a first. The mask is as many bits wide as
      the word has bytes: a word of eight loses the first byte of each store to it, a word of
      one its lowest bit. */
  predicate Wipes(c: Chunk, width: nat, a: nat, q: nat)
    requires WidthOk(width)
  {
    c.Covers(a) && if width == 8 then a == c.base || a % 8 == 0 else q == 0
  }

  /** The chunk puts a one there. */
  predicate SetsBit(c: Chunk, a: nat, q: nat)
    requires q < 8
  {
    c.Covers(a) && Bits(c.data[a - c.base], 8)[q]
  }

  /** One bit of a byte of the new word, over any old word. */
  lemma NewWordBit(value: Word, width: nat, shift: nat, data: seq<uint8>, j: nat, q: nat)
    requires WidthOk(width) && |value| == 8 * width && j < width && q < 8
    requires data != [] && shift + |data| <= width
    ensures ByteOf(OrBytes(ClearBits(value, width, shift), shift, data), j)[q]
         == if shift <= j < shift + |data|
            then Bits(data[j - shift], 8)[q] || (ByteOf(value, j)[q] && !(if width == 8 then j == shift else q == 0))
            else ByteOf(value, j)[q]
  {
    hide Bits, DataBits;
    var cleared := ClearBits(value, width, shift);
    var p := 8 * j + q;
    assert ByteOf(value, j)[q] == value[p];
    assert ByteOf(OrBytes(cleared, shift, data), j)[q] == OrBytes(cleared, shift, data)[p];
    assert cleared[p] == (value[p] && !(8 * shift <= p < 8 * shift + width));
    assert 8 * shift <= p < 8 * (shift + |data|) <==> shift <= j < shift + |data|;
    if shift <= j < shift + |data| {
      DataBit(data, j - shift, q);
      assert p - 8 * shift == 8 * (j - shift) + q;
      assert OrBytes(cleared, shift, data)[p] == (cleared[p] || Bits(data[j - shift], 8)[q]);
      assert 8 * shift <= p < 8 * shift + width <==> if width == 8 then j == shift else q == 0;
    } else {
      assert OrBytes(cleared, shift, data)[p] == cleared[p];
      assert !(8 * shift <= p < 8 * shift + width);
    }
  }

  /** The store to the first word, over any memory. */
  lemma FirstWordBit(mem: Memory, width: nat, base: nat, data: seq<uint8>, a: nat, q: nat)
    requires WidthOk(width) && WellFormed(mem, width) && q < 8
    requires data != [] && Offset(base, width) + |data| <= width
    ensures var mem' := mem[WordOf(base, width) := NewWord(mem, base, data, width)];
      var c := Chunk(base, data);
      && WellFormed(mem', width)
      && ByteAt(mem', width, a)[q] == (SetsBit(c, a, q) || (ByteAt(mem, width, a)[q] && !Wipes(c, width, a, q)))
  {
    hide OrBytes, ClearBits, Bits, WordOf, Offset;
    var k, shift, j := WordOf(base, width), Offset(base, width), Offset(a, width);
    Aligned(base, width, 0);
    var mem' := mem[k := NewWord(mem, base, data, width)];
    var value := if k in mem then mem[k] else Zeros(8 * width);
    SameWord(base, width, |data|, a);
    var c := Chunk(base, data);
    if WordOf(a, width) == k {
      NewWordBit(value, width, shift, data, j, q);
      WordStarts(base, width, a);
      assert ByteAt(mem, width, a)[q] == ByteOf(value, j)[q];
      assert ByteAt(mem', width, a)[q] == ByteOf(OrBytes(ClearBits(value, width, shift), shift, data), j)[q];
      assert c.Covers(a) <==> shift <= j < shift + |data|;
      assert c.Covers(a) ==> (Wipes(c, width, a, q) <==> if width == 8 then j == shift else q == 0);
    } else {
      assert !c.Covers(a);
      assert ByteAt(mem', width, a) == ByteAt(mem, width, a);
    }
  }

  /** Within the first word only its first byte can be the beginning of a store. */
  lemma WordStarts(base: nat, width: nat, a: nat)
    requires WidthOk(width) && WordOf(a, width) == WordOf(base, width)
    ensures a - base == Offset(a, width) - Offset(base, width)
    ensures width == 8 && a > base ==> a % 8 != 0
  {
  }

  /** Where the first word ends, the next store begins a word. */
  lemma NextWord(base: nat, width: nat, n: nat)
    requires WidthOk(width) && Offset(base, width) + n == width
    ensures (base + n) % width == 0
  {
    if width == 8 {
      assert base + n == 8 * (base / 8 + 1);
    }
  }

  /** A chunk acts like its part in the first word, then the rest. */
  lemma ChunkSplit(base: nat, data: seq<uint8>, n: nat, width: nat, a: nat, q: nat)
    requires WidthOk(width) && q < 8 && 0 < n <= |data| && (n < |data| ==> (base + n) % width == 0)
    requires width == 8 && base < a < base + n ==> a % 8 != 0
    ensures var c, head, tail := Chunk(base, data), Chunk(base, data[..n]), Chunk(base + n, data[n..]);
      && (SetsBit(c, a, q) <==> SetsBit(head, a, q) || SetsBit(tail, a, q))
      && (Wipes(c, width, a, q) <==> Wipes(head, width, a, q) || Wipes(tail, width, a, q))
      && !(SetsBit(head, a, q) && Wipes(tail, width, a, q))
  {
    hide Bits;
    assert base <= a < base + n ==> data[..n][a - base] == data[a - base];
    assert base + n <= a < base + |data| ==> data[n..][a - (base + n)] == data[a - base];
  }

  lemma InFirstWord(base: nat, width: nat, n: nat, a: nat)
    requires WidthOk(width) && Offset(base, width) + n <= width && base < a < base + n
    ensures width == 8 ==> a % 8 != 0
  {
    SameWord(base, width, n, a);
    WordStarts(base, width, a);
  }

  /** What storing a run of bytes leaves at every bit, over any memory, whichever words it spans. */
  lemma {:induction false} SpreadBits(mem: Memory, base: nat, data: seq<uint8>, width: nat, a: nat, q: nat)
    requires WidthOk(width) && WellFormed(mem, width) && q < 8
    ensures var c := Chunk(base, data);
      ByteAt(Spread(mem, base, data, width), width, a)[q]
      == (SetsBit(c, a, q) || (ByteAt(mem, width, a)[q] && !Wipes(c, width, a, q)))
    decreases |data|
  {
    hide ByteAt, WordOf, Offset, NewWord, WellFormed, SetsBit, Wipes;
    if data == [] {
      NoBytes(base, width, a, q);
    } else {
      Aligned(base, width, 0);
      var n := WordShare(base, |data|, width);
      FirstWordBit(mem, width, base, data[..n], a, q);
      SpreadBits(mem[WordOf(base, width) := NewWord(mem, base, data[..n], width)], base + n, data[n..], width, a, q);
      if n < |data| {
        NextWord(base, width, n);
      }
      if base < a < base + n {
        InFirstWord(base, width, n, a);
      }
      ChunkSplit(base, data, n, width, a, q);
    }
  }

  lemma NoBytes(base: nat, width: nat, a: nat, q: nat)
    requires WidthOk(width) && q < 8
    ensures !SetsBit(Chunk(base, []), a, q) && !Wipes(Chunk(base, []), width, a, q)
  {
  }

  /** No later chunk clears the bit. */
  predicate Kept(chunks: seq<Chunk>, width: nat, a: nat, q: nat, i: nat)
    requires WidthOk(width)
  {
    forall j :: i < j < |chunks| ==> !Wipes(chunks[j], width, a, q)
  }

  /** Some chunk puts a one there that is kept. */
  predicate Remains(chunks: seq<Chunk>, width: nat, a: nat, q: nat)
    requires WidthOk(width) && q < 8
  {
    exists i :: 0 <= i < |chunks| && SetsBit(chunks[i], a, q) && Kept(chunks, width, a, q, i)
  }

  /** The image of any chunks, overlapping or not, bit by bit. */
  lemma {:induction false} DecodedBits(chunks: seq<Chunk>, width: nat, a: nat, q: nat)
    requires WidthOk(width) && q < 8
    ensures Decoded(chunks, width, a)[q] <==> Remains(chunks, width, a, q)
  {
    hide Spread, ByteAt, SetsBit, Wipes, WidthOk;
    if chunks == [] {
      EmptyReadsZero(width, a);
      assert Decoded(chunks, width, a) == Zeros(8);
    } else {
      var n := |chunks| - 1;
      var init, last := chunks[..n], chunks[n];
      DecodedBits(init, width, a, q);
      SpreadBits(StoreAll(map[], init, width), last.base, last.data, width, a, q);
      assert last == Chunk(last.base, last.data);
      RemainsStep(chunks, width, a, q);
    }
  }

  lemma RemainsStep(chunks: seq<Chunk>, width: nat, a: nat, q: nat)
    requires WidthOk(width) && q < 8 && chunks != []
    ensures var last := chunks[|chunks| - 1];
      Remains(chunks, width, a, q)
      <==> SetsBit(last, a, q) || (Remains(chunks[..|chunks| - 1], width, a, q) && !Wipes(last, width, a, q))
  {
    hide SetsBit, Wipes, WidthOk;
    var n := |chunks| - 1;
    var init, last := chunks[..n], chunks[n];
    if Remains(chunks, width, a, q) && !SetsBit(last, a, q) {
      var i :| 0 <= i < |chunks| && SetsBit(chunks[i], a, q) && Kept(chunks, width, a, q, i);
      assert !Wipes(chunks[n], width, a, q);
      assert SetsBit(init[i], a, q);
      assert forall j :: i < j < n ==> init[j] == chunks[j];
      assert Kept(init, width, a, q, i);
    }
    if SetsBit(last, a, q) {
      assert Kept(chunks, width, a, q, n);
    }
    if Remains(init, width, a, q) && !Wipes(last, width, a, q) {
      var i :| 0 <= i < |init| && SetsBit(init[i], a, q) && Kept(init, width, a, q, i);
      assert SetsBit(chunks[i], a, q);
      assert forall j :: i < j < n ==> init[j] == chunks[j];
      assert Kept(chunks, width, a, q, i);
    }
  }

  /** The last chunk that covers the address. */
  predicate IsLast(chunks: seq<Chunk>, a: nat, i: nat) {
    i < |chunks| && chunks[i].Covers(a) && forall j :: i < j < |chunks| ==> !chunks[j].Covers(a)
  }

  /** In either width the last writer of a byte wins if and only if it sets every bit that an
      earlier chunk sets and no chunk in between or itself clears. */
  lemma {:induction false} LastWriterWinsIff(chunks: seq<Chunk>, width: nat, a: nat, last: nat)
    requires WidthOk(width) && IsLast(chunks, a, last)
    ensures Decoded(chunks, width, a) == Bits(chunks[last].data[a - chunks[last].base], 8)
       <==> forall i, q :: 0 <= i < last && 0 <= q < 8 && SetsBit(chunks[i], a, q) && Kept(chunks, width, a, q, i) ==>
              SetsBit(chunks[last], a, q)
  {
    hide Decoded, Bits, WidthOk;
    var b := Bits(chunks[last].data[a - chunks[last].base], 8);
    var d := Decoded(chunks, width, a);
    forall q | 0 <= q < 8
      ensures d[q] <==> Remains(chunks, width, a, q)
      ensures b[q] <==> SetsBit(chunks[last], a, q)
      ensures b[q] ==> d[q]
    {
      DecodedBits(chunks, width, a, q);
      assert Kept(chunks, width, a, q, last);
    }
    if d == b {
      forall i, q | 0 <= i < last && 0 <= q < 8 && SetsBit(chunks[i], a, q) && Kept(chunks, width, a, q, i)
        ensures SetsBit(chunks[last], a, q)
      {
        assert d[q];
      }
    }
    if forall i, q :: 0 <= i < last && 0 <= q < 8 && SetsBit(chunks[i], a, q) && Kept(chunks, width, a, q, i) ==>
         SetsBit(chunks[last], a, q) {
      forall q | 0 <= q < 8
        ensures d[q] == b[q]
      {
        if d[q] {
          var i :| 0 <= i < |chunks| && SetsBit(chunks[i], a, q) && Kept(chunks, width, a, q, i);
          assert i <= last;
        }
      }
      assert d == b;
    }
  }

  /** No later chunk begins a store to an eight-byte word at the address. */
  predicate NoneBegins(chunks: seq<Chunk>, a: nat, i: nat) {
    forall j :: i < j < |chunks| && chunks[j].Covers(a) ==> a != chunks[j].base && a % 8 != 0
  }

  /** What it takes for both widths to agree on a byte. Above the lowest bit, which single bytes
      never clear: a bit once set is set again by some chunk after which none begins there. For
      the lowest bit, which single bytes always clear: such a chunk sets it only if the last
      one does. */
  predicate Agreeable(chunks: seq<Chunk>, a: nat) {
    && (forall i, q :: 0 <= i < |chunks| && 1 <= q < 8 && SetsBit(chunks[i], a, q) ==> SetLate(chunks, a, q))
    && (SetLate(chunks, a, 0) ==> exists i :: 0 <= i < |chunks| && IsLast(chunks, a, i) && SetsBit(chunks[i], a, 0))
  }

  predicate SetLate(chunks: seq<Chunk>, a: nat, q: nat)
    requires q < 8
  {
    exists i :: 0 <= i < |chunks| && SetsBit(chunks[i], a, q) && NoneBegins(chunks, a, i)
  }

  /** With eight-byte words. */
  lemma RemainsInEight(chunks: seq<Chunk>, a: nat, q: nat)
    requires q < 8
    ensures Remains(chunks, 8, a, q) <==> SetLate(chunks, a, q)
  {
    hide SetsBit;
    assert forall i: nat :: Kept(chunks, 8, a, q, i) <==> NoneBegins(chunks, a, i) by {
      forall i: nat
        ensures Kept(chunks, 8, a, q, i) <==> NoneBegins(chunks, a, i)
      {
        if NoneBegins(chunks, a, i) {
          assert Kept(chunks, 8, a, q, i);
        }
        if Kept(chunks, 8, a, q, i) {
          assert forall j :: i < j < |chunks| ==> !Wipes(chunks[j], 8, a, q);
        }
      }
    }
  }

  /** With single bytes. */
  lemma RemainsInOne(chunks: seq<Chunk>, a: nat, q: nat)
    requires q < 8
    ensures q >= 1 ==> (Remains(chunks, 1, a, q) <==> exists i :: 0 <= i < |chunks| && SetsBit(chunks[i], a, q))
    ensures q == 0 ==>
      (Remains(chunks, 1, a, q)
       <==> exists i :: 0 <= i < |chunks| && IsLast(chunks, a, i) && SetsBit(chunks[i], a, q))
  {
    hide Bits;
    if q >= 1 {
      assert forall i: nat :: Kept(chunks, 1, a, q, i);
    } else {
      forall i: nat | i < |chunks| && SetsBit(chunks[i], a, 0)
        ensures Kept(chunks, 1, a, 0, i) <==> IsLast(chunks, a, i)
      {
        assert Kept(chunks, 1, a, 0, i) ==> forall j :: i < j < |chunks| ==> !Wipes(chunks[j], 1, a, 0);
      }
    }
  }

  /** The exact condition for both widths to decode a byte alike, overlapping or not. */
  lemma {:induction false} WidthsAgreeIff(chunks: seq<Chunk>, a: nat)
    ensures Decoded(chunks, 8, a) == Decoded(chunks, 1, a) <==> Agreeable(chunks, a)
  {
    hide Decoded, SetsBit, SetLate, IsLast, Remains;
    var d8, d1 := Decoded(chunks, 8, a), Decoded(chunks, 1, a);
    forall q | 0 <= q < 8
      ensures d8[q] <==> SetLate(chunks, a, q)
      ensures q >= 1 ==> (d1[q] <==> exists i :: 0 <= i < |chunks| && SetsBit(chunks[i], a, q))
      ensures q == 0 ==> (d1[q] <==> exists i :: 0 <= i < |chunks| && IsLast(chunks, a, i) && SetsBit(chunks[i], a, q))
    {
      DecodedBits(chunks, 8, a, q);
      DecodedBits(chunks, 1, a, q);
      RemainsInEight(chunks, a, q);
      RemainsInOne(chunks, a, q);
    }
    LateIsSet(chunks, a);
    if Agreeable(chunks, a) {
      forall q | 0 <= q < 8
        ensures d8[q] == d1[q]
      {
      }
      assert d8 == d1;
    }
  }

  lemma LateIsSet(chunks: seq<Chunk>, a: nat)
    ensures forall q :: 0 <= q < 8 && SetLate(chunks, a, q) ==>
      exists i :: 0 <= i < |chunks| && SetsBit(chunks[i], a, q)
    ensures (exists i :: 0 <= i < |chunks| && IsLast(chunks, a, i) && SetsBit(chunks[i], a, 0)) ==>
      SetLate(chunks, a, 0)
  {
    hide SetsBit;
  }

  /** Overlapping chunks that the widths decode differently, whose last writer loses in both: in
      eight-byte words the second byte of a store is not cleared. */
  lemma WidthsDisagree(chunks: seq<Chunk>)
    requires chunks == [Chunk(0, [0, 2]), Chunk(0, [0, 0])] || chunks == [Chunk(0, [2]), Chunk(0, [0])]
    ensures chunks[0].data == [2] ==> Decoded(chunks, 8, 0) != Decoded(chunks, 1, 0)
    ensures chunks[0].data == [0, 2] ==> Decoded(chunks, 8, 1) != Bits(0, 8) && Decoded(chunks, 1, 1) != Bits(0, 8)
  {
    hide Decoded;
    assert Bits(2, 8)[1] && !Bits(0, 8)[1];
    if chunks[0].data == [2] {
      assert SetsBit(chunks[0], 0, 1) && !SetsBit(chunks[1], 0, 1);
      assert chunks[1].Covers(0) && 0 == chunks[1].base;
      assert !NoneBegins(chunks, 0, 0);
      assert !SetLate(chunks, 0, 1);
      WidthsAgreeIff(chunks, 0);
    } else {
      assert SetsBit(chunks[0], 1, 1) && !SetsBit(chunks[1], 1, 1) && IsLast(chunks, 1, 1);
      assert Kept(chunks, 8, 1, 1, 0) && Kept(chunks, 1, 1, 1, 0);
      LastWriterWinsIff(chunks, 8, 1, 1);
      LastWriterWinsIff(chunks, 1, 1, 1);
    }
  }

  // ----- The binary file -----

  function Range(lo: nat, n: nat): (r: set<nat>)
    ensures forall a: nat :: a in r <==> lo <= a < lo + n
    decreases n
  {
    if n == 0 then {} else {lo} + Range(lo + 1, n - 1)
  }

  /** The addresses of the chunks. */
  function AllAddresses(chunks: seq<Chunk>): set<nat> {
    if chunks == [] then {}
    else
      var last := chunks[|chunks| - 1];
      AllAddresses(chunks[..|chunks| - 1]) + Range(last.base, |last.data|)
  }

  /** The bytes from the lowest to the highest address, zeros in the gaps. */
  ghost predicate IsDense(file: seq<Word>, mem: Memory)
    requires WellFormed(mem, 1)
  {
    if mem == map[] then file == []
    else exists lo, hi :: IsDenseFrom(file, mem, lo, hi)
  }

  ghost predicate IsDenseFrom(file: seq<Word>, mem: Memory, lo: nat, hi: nat)
    requires WellFormed(mem, 1)
  {
    && lo in mem && hi in mem && (forall k :: k in mem ==> lo <= k <= hi)
    && |file| == hi - lo + 1
    && forall i :: 0 <= i < |file| ==> file[i] == ByteAt(mem, 1, lo + i)
  }

  lemma {:induction false} SpreadAddresses(mem: Memory, base: nat, data: seq<uint8>)
    requires WellFormed(mem, 1)
    ensures Spread(mem, base, data, 1).Keys == mem.Keys + Range(base, |data|)
    decreases |data|
  {
    hide NewWord;
    if data != [] {
      Aligned(base, 1, 0);
      SpreadAddresses(mem[base := NewWord(mem, base, data[..1], 1)], base + 1, data[1..]);
    }
  }

  /** With one byte a word, the keys are the addresses of the chunks. */
  lemma {:induction false} AddressesStored(chunks: seq<Chunk>)
    ensures StoreAll(map[], chunks, 1).Keys == AllAddresses(chunks)
  {
    hide Spread;
    if chunks != [] {
      var last := chunks[|chunks| - 1];
      AddressesStored(chunks[..|chunks| - 1]);
      SpreadAddresses(StoreAll(map[], chunks[..|chunks| - 1], 1), last.base, last.data);
    }
  }

  /** A whole run of the binary writer over chunks that do not overlap: every byte of the
      file is the byte of the chunk that covers its address, or zero. */
  lemma FileIsUnion(chunks: seq<Chunk>, file: seq<Word>, lo: nat, hi: nat, i: nat, a: nat)
    requires Disjoint(chunks) && IsDenseFrom(file, StoreAll(map[], chunks, 1), lo, hi)
    requires i < |chunks| && chunks[i].Covers(a)
    ensures lo <= a <= hi && file[a - lo] == Bits(chunks[i].data[a - chunks[i].base], 8)
  {
    hide Bits, StoreAll, ByteAt;
    ImageIsUnion(chunks, 1);
    AddressesStored(chunks);
    CoveredIffAddress(chunks, a);
    assert file[a - lo] == ByteAt(StoreAll(map[], chunks, 1), 1, lo + (a - lo));
  }

  lemma FileGapsAreZero(chunks: seq<Chunk>, file: seq<Word>, lo: nat, hi: nat, a: nat)
    requires Disjoint(chunks) && IsDenseFrom(file, StoreAll(map[], chunks, 1), lo, hi)
    requires lo <= a <= hi && !Covered(chunks, a)
    ensures file[a - lo] == Zeros(8)
  {
    hide StoreAll, ByteAt, Covered;
    ImageIsUnion(chunks, 1);
    assert file[a - lo] == ByteAt(StoreAll(map[], chunks, 1), 1, lo + (a - lo));
  }

  lemma {:induction false} CoveredIffAddress(chunks: seq<Chunk>, a: nat)
    ensures Covered(chunks, a) <==> a in AllAddresses(chunks)
  {
    if chunks != [] {
      var init, last := chunks[..|chunks| - 1], chunks[|chunks| - 1];
      CoveredIffAddress(init, a);
      if Covered(init, a) {
        var i :| 0 <= i < |init| && init[i].Covers(a);
        assert chunks[i].Covers(a);
      }
      if last.Covers(a) {
        assert chunks[|chunks| - 1].Covers(a);
      }
      if Covered(chunks, a) && !last.Covers(a) {
        var i :| 0 <= i < |chunks| && chunks[i].Covers(a);
        assert init[i].Covers(a);
      }
    }
  }

  lemma NoKeyBetween(keys: seq<nat>, mem: Memory, i: nat, a: nat)
    requires forall p, q :: 0 <= p < q < |keys| ==> keys[p] < keys[q]
    requires forall k :: k in keys <==> k in mem.Keys
    requires 0 < i < |keys| && keys[i - 1] < a < keys[i] && WellFormed(mem, 1)
    ensures ByteAt(mem, 1, a) == Zeros(8)
  {
    assert WordOf(a, 1) == a;
    if a in mem {
      assert a in keys;
      var p :| 0 <= p < |keys| && keys[p] == a;
    }
  }

  // ----- The program -----

  class Generator {
    var binaries: seq<seq<Segment>>
    var areas: seq<Area>
    var mem: Memory

    constructor (binaries: seq<seq<Segment>>, areas: seq<Area>)
      ensures this.binaries == binaries && this.areas == areas && mem == map[]
    {
      this.binaries, this.areas, mem := binaries, areas, map[];
    }

    method AddMemWord(base: nat, size: nat, data: seq<uint8>, width: nat) returns (iterSize: nat)
      requires WidthOk(width) && WellFormed(mem, width) && 0 < size == |data|
      modifies this`mem
      ensures WellFormed(mem, width) && iterSize == WordShare(base, size, width)
      ensures mem == old(mem)[WordOf(base, width) := NewWord(old(mem), base, data[..iterSize], width)]
    {
      hide ClearBits, OrBytes, WordOf, Offset;
      Aligned(base, width, 0);
      var alignedBase := WordOf(base, width);
      var shift := base - alignedBase;
      assert shift == Offset(base, width);
      iterSize := width - shift;
      if iterSize > size {
        iterSize := size;
      }
      var value := if alignedBase in mem then mem[alignedBase] else Zeros(8 * width);
      value := ClearBits(value, width, shift);
      value := OrBytes(value, shift, data[..iterSize]);
      mem := mem[alignedBase := value];
    }

    method AddMem(base: nat, size: nat, data: seq<uint8>, width: nat)
      requires WidthOk(width) && WellFormed(mem, width) && size == |data|
      modifies this`mem
      ensures WellFormed(mem, width) && mem == Spread(old(mem), base, data, width)
    {
      var b, left, rest := base, size, data;
      while left > 0
        invariant WellFormed(mem, width) && left == |rest|
        invariant Spread(mem, b, rest, width) == Spread(old(mem), base, data, width)
        decreases left
      {
        var iterSize := AddMemWord(b, left, rest, width);
        left := left - iterSize;
        b := b + iterSize;
        rest := rest[iterSize..];
      }
    }

    method ParseBinaries(width: nat)
      requires WidthOk(width)
      modifies this`mem
      ensures WellFormed(mem, width) && mem == StoreAll(map[], AllChunks(binaries, areas), width)
    {
      hide StoreAll, WellFormed, SegmentChunks;
      mem := map[];
      EmptyMemory(width);
      for i := 0 to |binaries|
        invariant WellFormed(mem, width) && mem == StoreAll(map[], AllChunks(binaries[..i], areas), width)
      {
        ghost var earlier := AllChunks(binaries[..i], areas);
        assert binaries[..i + 1][..i] == binaries[..i];
        assert earlier + FileChunks(binaries[i][..0], areas) == earlier;
        for j := 0 to |binaries[i]|
          invariant WellFormed(mem, width)
          invariant mem == StoreAll(map[], earlier + FileChunks(binaries[i][..j], areas), width)
        {
          assert binaries[i][..j + 1][..j] == binaries[i][..j];
          ghost var before := earlier + FileChunks(binaries[i][..j], areas);
          StoreConcat(map[], before, SegmentChunks(binaries[i][j], areas), width);
          assert before + SegmentChunks(binaries[i][j], areas)
              == earlier + FileChunks(binaries[i][..j + 1], areas);
          LoadSegment(binaries[i][j], width);
        }
        assert binaries[i][..|binaries[i]|] == binaries[i];
      }
      assert binaries[..|binaries|] == binaries;
    }

    /** The body of the segment loop. */
    method LoadSegment(segment: Segment, width: nat)
      requires WidthOk(width) && WellFormed(mem, width)
      modifies this`mem
      ensures WellFormed(mem, width) && mem == StoreAll(old(mem), SegmentChunks(segment, areas), width)
    {
      hide Spread, WellFormed;
      ghost var chunks := SegmentChunks(segment, areas);
      if segment.isLoad {
        var addr, size := segment.paddr, |segment.data|;
        var load := true;
        if |areas| != 0 {
          load := false;
          var i := 0;
          while i < |areas| && !load
            invariant 0 <= i <= |areas|
            invariant load <==> exists k :: 0 <= k < i && areas[k].Holds(addr, size)
          {
            if areas[i].start <= addr && addr + size <= areas[i].end {
              load := true;
            }
            i := i + 1;
          }
        }
        if load {
          assert chunks[..1] == [Chunk(addr, segment.data)] && chunks[..1][..0] == [];
          AddMem(addr, size, segment.data, width);
          assert StoreAll(old(mem), chunks[..1], width) == mem;
          if size < segment.memsz {
            assert |chunks| == 2 && chunks[..|chunks| - 1] == chunks[..1];
            AddMem(addr + size, segment.memsz - size, ZeroBytes(segment.memsz - size), width);
          }
        }
      }
    }

    /** The writing loop of gen_stim_bin, over the image built with one byte a word. */
    method GenStimBin() returns (file: seq<Word>)
      requires OrdersAgree(AllAddresses(AllChunks(binaries, areas)))
      modifies this`mem
      ensures WellFormed(mem, 1) && mem == StoreAll(map[], AllChunks(binaries, areas), 1)
      ensures IsDense(file, mem)
    {
      ParseBinaries(1);
      AddressesStored(AllChunks(binaries, areas));
      file := WriteImage();
    }

    method WriteImage() returns (file: seq<Word>)
      requires WellFormed(mem, 1) && OrdersAgree(mem.Keys)
      ensures IsDense(file, mem)
    {
      hide OrdersAgree, SortedAsStrings, Zeros;
      file := [];
      var keys := SortedKeys(mem.Keys);
      Increasing(keys, mem.Keys);
      if keys == [] {
        return;
      }
      var prev := keys[0];
      assert keys[0] in keys;
      file := [mem[keys[0]]];
      assert file[0] == ByteAt(mem, 1, keys[0]);
      for i := 1 to |keys|
        invariant prev == keys[i - 1] && |file| == prev - keys[0] + 1
        invariant forall j :: 0 <= j < |file| ==> file[j] == ByteAt(mem, 1, keys[0] + j)
      {
        assert keys[i] in keys;
        while prev != keys[i] - 1
          invariant keys[i - 1] <= prev < keys[i] && |file| == prev - keys[0] + 1
          invariant forall j :: 0 <= j < |file| ==> file[j] == ByteAt(mem, 1, keys[0] + j)
          decreases keys[i] - prev
        {
          NoKeyBetween(keys, mem, i, prev + 1);
          file := file + [Zeros(8)];
          prev := prev + 1;
        }
        prev := keys[i];
        file := file + [mem[keys[i]]];
        assert ByteAt(mem, 1, keys[i]) == mem[keys[i]];
      }
      assert IsDenseFrom(file, mem, keys[0], keys[|keys| - 1]);
    }
  }
}

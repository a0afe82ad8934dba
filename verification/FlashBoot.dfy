/** Booting from SPI flash, a2_boot/main.c: the table of memory areas is read
    from flash, the loader's own data is moved to an address no area covers,
    and each area is copied block by block. Flash is a byte per address below
    2^24; RAM is a byte per 32-bit address. The loader's data structure lives in
    RAM, and every field the program reads through its pointer is decoded from RAM. */
module FlashBoot {
  import opened Words
  import opened Memory

  const MAX_NB_AREA := 16
  const FLASH_BLOCK_SIZE := 4096
  const HYPER_FLASH_BLOCK_SIZE := 1024
  const SIZEOF_HEADER := 16
  const SIZEOF_AREA := 16

  // Layout of boot_code_t.
  const FLASH_BUFFER := 0
  const STEP := 5124
  const HEADER := 5128
  const MEM_AREA := 5144
  const HYPERFLASH := 6428
  const BLOCK_SIZE := 6432
  const QPI := 6436
  const SIZEOF_BOOT_CODE := 6440

  const L2_START := 0x1C00_0000
  const L2_END := 0x1D00_0000

  /** An entry of the area table (flash_v2_mem_area_t). */
  datatype Area = Area(start: uint32, ptr: uint32, size: uint32, blocks: uint32) {
    predicate IsL2() {
      L2_START <= ptr < L2_END
    }

    /** One past the last RAM byte that loading the area writes: whole words. */
    function End(): int {
      ptr + RoundUp(size, 4)
    }
  }

  // ----- Reading memory -----

  function AreaAt(m: Ram, a: int): Area {
    Area(Load32(m, a), Load32(m, a + 4), Load32(m, a + 8), Load32(m, a + 12))
  }

  /** The area table that follows a header at address h. */
  function TableAt(m: Ram, h: int): (t: seq<Area>)
    ensures |t| == Load32(m, h + 4)
  {
    AreasAt(m, h + SIZEOF_HEADER, Load32(m, h + 4))
  }

  function AreasAt(m: Ram, at: int, n: nat): (t: seq<Area>)
    ensures |t| == n
  {
    seq(n, i => AreaAt(m, at + SIZEOF_AREA * i))
  }

  /** The number of blocks a section of this size takes. */
  function BlockCount(size: uint32, b: int): nat
    requires b > 0
  {
    RoundUpBounds(size, b);
    RoundUp(size, b) / b
  }

  // ----- The tables the loader is meant for -----

  ghost predicate SortedDisjoint(t: seq<Area>) {
    && (forall i :: 0 <= i < |t| ==> t[i].ptr + t[i].size < WORD)
    && (forall i, j :: 0 <= i < j < |t| ==> t[i].ptr + t[i].size <= t[j].ptr)
  }

  /** The right number of blocks, or more for a size in whole words. */
  predicate BlocksSuffice(a: Area, b: int)
    requires b > 0
  {
    a.blocks == BlockCount(a.size, b) || (a.blocks > BlockCount(a.size, b) && a.size % 4 == 0)
  }

  predicate Loadable(a: Area, b: int)
    requires b > 0
  {
    && a.ptr % 4 == 0
    && BlocksSuffice(a, b)
    && a.ptr + a.size < WORD
    && a.start + a.size <= 0x100_0000
  }

  ghost predicate ValidTable(t: seq<Area>, b: int)
    requires b > 0
  {
    && |t| <= MAX_NB_AREA
    && SortedDisjoint(t)
    && forall i :: 0 <= i < |t| ==> Loadable(t[i], b)
  }

  // ----- Where the loader's data fits -----

  /** The loader's data at address x would share a byte with the area. */
  predicate Meets(x: int, a: Area) {
    x < a.ptr + a.size && a.ptr < x + SIZEOF_BOOT_CODE
  }

  ghost predicate Fits(x: int, t: seq<Area>, b: int)
    requires b > 0
  {
    && L2_START <= x && x + SIZEOF_BOOT_CODE <= WORD && x % b == 0
    && forall i :: 0 <= i < |t| ==> !Meets(x, t[i])
  }

  /** The program's collision test, in 32-bit arithmetic. */
  predicate Collides(addr: uint32, a: Area) {
    || (addr >= a.ptr && addr < Add32(a.ptr, a.size))
    || (addr < a.ptr && Add32(addr, SIZEOF_BOOT_CODE) > a.ptr)
  }

  /** The program's next candidate after a collision. */
  function NextCandidate(a: Area, b: uint32): uint32
    requires b > 0
  {
    BitAnd(Add32(Add32(a.ptr, a.size), b - 1), Complement(b - 1))
  }

  function Step(addr: uint32, a: Area, b: uint32): uint32
    requires b > 0
  {
    if Collides(addr, a) then NextCandidate(a, b) else addr
  }

  /** What the placement loop keeps, given any place x where the data would fit:
      the candidate does not pass x and is clear of the areas seen so far. */
  ghost predicate Candidate(addr: int, t: seq<Area>, n: int, b: int, x: int)
    requires b > 0 && 0 <= n <= |t|
  {
    && L2_START <= addr <= x && addr % b == 0
    && forall i :: 0 <= i < n ==> !Meets(addr, t[i])
  }

  lemma CollidesIffMeets(addr: uint32, a: Area, b: uint32, x: int)
    requires 0 < b && addr <= x && x + SIZEOF_BOOT_CODE <= WORD
    requires a.ptr + a.size < WORD && !Meets(x, a)
    ensures Collides(addr, a) <==> Meets(addr, a)
  {
  }

  lemma NextCandidateRoundsUp(a: Area, k: nat)
    requires k < 32 && a.ptr + a.size < WORD
    ensures 0 < Pow2(k) < WORD
    ensures RoundUp(a.ptr + a.size, Pow2(k)) < WORD
        ==> NextCandidate(a, Pow2(k)) == RoundUp(a.ptr + a.size, Pow2(k))
  {
    hide BitAnd, RoundUp;
    RoundUpInWord(a.ptr + a.size, k);
  }

  lemma CandidateStep(addr: uint32, t: seq<Area>, n: nat, k: nat, x: int)
    requires k < 32 && n < |t| && SortedDisjoint(t)
    requires Fits(x, t, Pow2(k)) && Candidate(addr, t, n, Pow2(k), x)
    ensures Pow2(k) < WORD && Candidate(Step(addr, t[n], Pow2(k)), t, n + 1, Pow2(k), x)
  {
    hide NextCandidate, RoundUp;
    var b, a := Pow2(k), t[n];
    var end := a.ptr + a.size;
    NextCandidateRoundsUp(a, k);
    CollidesIffMeets(addr, a, b, x);
    if Collides(addr, a) {
      RoundUpBounds(end, b);
      RoundUpLeast(end, b, x);
    }
  }

  lemma BaseIsAligned(k: nat)
    requires k <= 26
    ensures L2_START % Pow2(k) == 0
  {
    hide Pow2;
    Pow2OfTwentySix();
    Pow2Monotone(k, 26);
    SevenTimes(Pow2(26), Pow2(k));
  }

  lemma Pow2OfTwentySix()
    ensures Pow2(26) == 0x400_0000
  {
    PowersOfTwo();
    assert Pow2(25) == 2 * Pow2(24);
  }

  lemma SevenTimes(m: nat, d: nat)
    requires d > 0 && m % d == 0
    ensures (7 * m) % d == 0
  {
    var q := m / d;
    assert m == d * q;
    assert 7 * m == d * (7 * q);
    DivModUnique(7 * m, d, 7 * q, 0);
  }

  // ----- Memory effects -----

  /** The cells from `at` hold the flash bytes from `from`. */
  ghost predicate Copied(m: Ram, at: int, flash: Flash, from: int, len: int) {
    forall x :: at <= x < at + len ==> Get(m, x) == FlashByte(flash, from + (x - at))
  }

  /** Flash decoded with the same layout as memory. */
  function FlashWord(flash: Flash, a: int): uint32 {
    Word32(FlashByte(flash, a), FlashByte(flash, a + 1), FlashByte(flash, a + 2), FlashByte(flash, a + 3))
  }

  function FlashArea(flash: Flash, a: int): Area {
    Area(FlashWord(flash, a), FlashWord(flash, a + 4), FlashWord(flash, a + 8), FlashWord(flash, a + 12))
  }

  function FlashTable(flash: Flash): (t: seq<Area>)
    ensures |t| == FlashWord(flash, 4)
  {
    seq(FlashWord(flash, 4), i requires 0 <= i => FlashArea(flash, SIZEOF_HEADER + SIZEOF_AREA * i))
  }

  lemma WordCopied(m: Ram, h: int, flash: Flash, len: int, at: int)
    requires Copied(m, h, flash, 0, len) && 0 <= at && at + 4 <= len
    ensures Load32(m, h + at) == FlashWord(flash, at)
  {
    assert Get(m, h + at) == FlashByte(flash, at);
    assert Get(m, h + at + 1) == FlashByte(flash, at + 1);
    assert Get(m, h + at + 2) == FlashByte(flash, at + 2);
    assert Get(m, h + at + 3) == FlashByte(flash, at + 3);
  }

  /** Two adjacent copies make one. */
  lemma CopiedOn(before: Ram, after: Ram, at: int, flash: Flash, n: int, more: int)
    requires Copied(before, at, flash, 0, n) && Copied(after, at + n, flash, n, more)
    requires forall x :: x < at + n ==> Get(after, x) == Get(before, x)
    ensures Copied(after, at, flash, 0, n + more)
  {
  }

  lemma AreaCopied(m: Ram, h: int, flash: Flash, len: int, at: int)
    requires Copied(m, h, flash, 0, len) && 0 <= at && at + SIZEOF_AREA <= len
    ensures AreaAt(m, h + at) == FlashArea(flash, at)
  {
    hide Copied, Load32, FlashWord;
    WordCopied(m, h, flash, len, at);
    WordCopied(m, h, flash, len, at + 4);
    WordCopied(m, h, flash, len, at + 8);
    WordCopied(m, h, flash, len, at + 12);
  }

  /** The header and table in RAM decode to what flash holds. */
  lemma TableSurvives(m: Ram, h: int, flash: Flash)
    requires Copied(m, h, flash, 0, SIZEOF_HEADER + SIZEOF_AREA * FlashWord(flash, 4))
    ensures Load32(m, h + 4) == FlashWord(flash, 4)
    ensures Load32(m, h + 8) == FlashWord(flash, 8)
    ensures TableAt(m, h) == FlashTable(flash)
  {
    hide Copied, Load32, AreaAt, FlashArea, FlashWord;
    var len := SIZEOF_HEADER + SIZEOF_AREA * FlashWord(flash, 4);
    WordCopied(m, h, flash, len, 4);
    WordCopied(m, h, flash, len, 8);
    var t, f := TableAt(m, h), FlashTable(flash);
    forall i | 0 <= i < |f|
      ensures t[i] == f[i]
    {
      AreaCopied(m, h, flash, len, SIZEOF_HEADER + SIZEOF_AREA * i);
    }
  }

  // ----- Block arithmetic -----

  /** The size of the next block when `size` bytes are left. */
  function IterSize(size: uint32, blockSize: uint32): uint32 {
    if blockSize > size then BitAnd(Add32(size, 3), 0xFFFF_FFFC) else blockSize
  }

  lemma IterSizeIs(size: uint32, b: uint32)
    requires b < WORD - 4 && b % 4 == 0
    ensures IterSize(size, b) == if size < b then RoundUp(size, 4) else b
    ensures IterSize(size, b) <= b
  {
    hide BitAnd, RoundUp;
    assert Pow2(2) == 4;
    if size < b {
      RoundUpInWord(size, 2);
      RoundUpLeast(size, 4, b);
    }
  }

  /** Bytes moved by the first n blocks of a section. */
  function Moved(size: uint32, b: uint32, n: nat): nat
    decreases n
  {
    if n == 0 then 0
    else IterSize(size, b) + Moved(Sub32(size, IterSize(size, b)), b, n - 1)
  }

  lemma {:induction false} MovedNothing(b: uint32, n: nat)
    requires 0 < b < WORD - 4 && b % 4 == 0
    ensures Moved(0, b, n) == 0
    decreases n
  {
    hide IterSize;
    if n > 0 {
      IterSizeIs(0, b);
      MovedNothing(b, n - 1);
    }
  }

  lemma RoundUpFour(size: nat)
    ensures size <= RoundUp(size, 4) < size + 4 && (size % 4 == 0 <==> RoundUp(size, 4) == size)
  {
    RoundUpBounds(size, 4);
  }

  lemma RoundUpShift(full: nat, rest: nat)
    requires full % 4 == 0
    ensures RoundUp(full + rest, 4) == full + RoundUp(rest, 4) && (full + rest) % 4 == rest % 4
  {
    var k := full / 4;
    assert full == 4 * k;
    assert (full + rest) % 4 == rest % 4;
    assert (full + (rest + 3)) % 4 == (rest + 3) % 4;
  }

  /** Rounding up to words does not reach past an aligned address. */
  lemma WordsEnd(ptr: nat, size: nat, x: int)
    requires ptr % 4 == 0 && x % 4 == 0 && ptr + size <= x
    ensures ptr + RoundUp(size, 4) <= x
  {
  }

  lemma MovedUnfold(size: uint32, b: uint32, n: nat)
    requires n > 0
    ensures Moved(size, b, n) == IterSize(size, b) + Moved(Sub32(size, IterSize(size, b)), b, n - 1)
  {
  }

  lemma MovedStep(size: uint32, b: uint32, n: nat)
    requires 0 < b < 0x8000_0000 && b % 4 == 0 && n > 0
    ensures size >= b ==> Moved(size, b, n) == b + Moved(size - b, b, n - 1)
    ensures size < b && size % 4 == 0 ==> Moved(size, b, n) == size
    ensures size < b && size % 4 != 0 && n > 1 ==> Moved(size, b, n) >= RoundUp(size, 4) + b
    ensures n == 1 && size < b ==> Moved(size, b, n) == RoundUp(size, 4)
  {
    hide IterSize, Moved, RoundUp;
    IterSizeIs(size, b);
    MovedUnfold(size, b, n);
    var left := Sub32(size, IterSize(size, b));
    if size >= b {
      assert left == size - b;
    } else {
      MovedNone(left, b);
      RoundUpFour(size);
      if size % 4 == 0 {
        MovedNothing(b, n - 1);
      } else if n > 1 {
        assert left >= b;
        IterSizeIs(left, b);
        MovedUnfold(left, b, n - 1);
      }
    }
  }

  lemma MovedNone(size: uint32, b: uint32)
    requires 0 < b
    ensures Moved(size, b, 0) == 0
  {
  }

  lemma {:induction false} MovedFullBlocks(size: uint32, b: uint32, m: nat, n: nat)
    requires 0 < b < 0x8000_0000 && b % 4 == 0 && m * b <= size
    ensures Moved(size, b, m + n) == m * b + Moved(size - m * b, b, n)
    decreases m
  {
    hide Moved;
    if m > 0 {
      assert m * b == (m - 1) * b + b && (m - 1) * b >= 0;
      MovedStep(size, b, m + n);
      MovedFullBlocks(size - b, b, m - 1, n);
    }
  }

  /** The full blocks of a size, and what is left for one more. */
  lemma BlockCountIs(size: uint32, b: uint32) returns (full: nat, rest: nat)
    requires b > 0
    ensures size == full * b + rest && rest < b
    ensures BlockCount(size, b) == full + if rest == 0 then 0 else 1
  {
    var y := size + b - 1;
    full, rest := size / b, size % b;
    if rest == 0 {
      DivModUnique(y, b, full, b - 1);
    } else {
      DivModUnique(y, b, full + 1, rest - 1);
    }
    DivModUnique(RoundUp(size, b), b, y / b, 0);
  }

  lemma Multiply(n: nat, m: nat, b: nat)
    requires n <= m
    ensures n * b <= m * b
    ensures n < m && b > 0 ==> n * b < m * b
  {
  }

  lemma FourDivides(m: nat, b: nat)
    requires b % 4 == 0
    ensures (m * b) % 4 == 0
  {
    assert m * b == 4 * (m * (b / 4));
  }

  lemma MovedTooFew(size: uint32, b: uint32, n: nat)
    requires 0 < b < 0x8000_0000 && b % 4 == 0 && n < BlockCount(size, b)
    ensures Moved(size, b, n) == n * b < size
  {
    hide Moved, BlockCount;
    var m, rest := BlockCountIs(size, b);
    Multiply(n, m, b);
    MovedFullBlocks(size, b, n, 0);
    MovedNone(size - n * b, b);
  }

  /** All full blocks are moved, then n more are asked for. */
  lemma MovedRest(size: uint32, b: uint32, full: nat, rest: uint32, n: nat, total: nat)
    requires 0 < b < 0x8000_0000 && b % 4 == 0
    requires full % 4 == 0 && size == full + rest && rest < b
    requires total == full + Moved(rest, b, n)
    ensures n == 0 && rest == 0 ==> total == size
    ensures n == 1 ==> total == RoundUp(size, 4)
    ensures n >= 1 && size % 4 == 0 ==> total == size
    ensures n >= 1 && rest == 0 ==> total == size
    ensures n >= 2 && size % 4 != 0 ==> total > RoundUp(size, 4)
  {
    hide Moved, RoundUp;
    RoundUpFour(size);
    RoundUpShift(full, rest);
    MovedNone(rest, b);
    if n > 0 {
      MovedStep(rest, b, n);
    }
  }

  /** How many bytes n blocks move, when n is enough. The byte counter wraps below
      zero after the padded block of a size that is no multiple of four, so a surplus
      block then copies again; otherwise surplus blocks are empty. */
  lemma MovedEnough(size: uint32, b: uint32, n: nat)
    requires 0 < b < 0x8000_0000 && b % 4 == 0 && n >= BlockCount(size, b)
    ensures n == BlockCount(size, b) ==> Moved(size, b, n) == RoundUp(size, 4)
    ensures n > BlockCount(size, b) && size % 4 == 0 ==> Moved(size, b, n) == size
    ensures n > BlockCount(size, b) && size % 4 != 0 ==> Moved(size, b, n) > RoundUp(size, 4)
  {
    hide Moved, BlockCount, RoundUp;
    var m, rest := BlockCountIs(size, b);
    FourDivides(m, b);
    RoundUpFour(size);
    MovedFullBlocks(size, b, m, n - m);
    MovedRest(size, b, m * b, rest, n - m, Moved(size, b, n));
  }

  /** A section copies exactly its size, rounded up to words, if and only if the
      table's block count is the right one, or too large for a size in whole words. */
  lemma BlocksExact(size: uint32, b: uint32, blocks: uint32)
    requires 0 < b < 0x8000_0000 && b % 4 == 0
    ensures Moved(size, b, blocks) == RoundUp(size, 4)
       <==> blocks == BlockCount(size, b) || (blocks > BlockCount(size, b) && size % 4 == 0)
  {
    hide Moved, BlockCount, RoundUp;
    RoundUpFour(size);
    if blocks < BlockCount(size, b) {
      MovedTooFew(size, b, blocks);
    } else {
      MovedEnough(size, b, blocks);
    }
  }

  /** Five bytes in two blocks: after the first, padded to eight, the counter has wrapped, and the
      second moves a whole block more. */
  lemma SurplusBlockMoves(b: uint32)
    requires 8 <= b < 0x8000_0000 && b % 4 == 0
    ensures BlockCount(5, b) == 1 && Moved(5, b, 2) == 8 + b
  {
    hide Moved, IterSize, BlockCount;
    var full, rest := BlockCountIs(5, b);
    IterSizeIs(5, b);
    MovedUnfold(5, b, 2);
    var left := Sub32(5, 8);
    IterSizeIs(left, b);
    MovedUnfold(left, b, 1);
    MovedNone(Sub32(left, b), b);
    assert full == 0 by {
      if full > 0 {
        Multiply(1, full, b);
      }
    }
  }

  function BlockStart(b: int, i: int): int {
    i * b
  }

  /** How long block i of a section is, and where the next one starts. */
  lemma SectionBlock(size: uint32, b: uint32, i: nat, at: int, n: int)
    requires 0 < b < 0x8000_0000 && b % 4 == 0 && i < BlockCount(size, b)
    requires at == BlockStart(b, i) && (0 <= at <= size ==> n == IterSize(size - at, b))
    ensures 0 <= at < size && 0 <= n <= b && at + n <= RoundUp(size, 4)
    ensures i + 1 < BlockCount(size, b) ==> BlockStart(b, i + 1) == at + n <= size
    ensures i + 1 == BlockCount(size, b) ==> at + n == RoundUp(size, 4)
  {
    hide Moved, BlockCount, IterSize, RoundUp;
    RoundUpFour(size);
    MovedTooFew(size, b, i);
    IterSizeIs(size - i * b, b);
    if i + 1 < BlockCount(size, b) {
      MovedTooFew(size, b, i + 1);
    } else {
      MovedEnough(size, b, i + 1);
      MovedFullBlocks(size, b, i, 1);
      MovedUnfold(size - i * b, b, 1);
      MovedNone(Sub32(size - i * b, IterSize(size - i * b, b)), b);
    }
  }

  // ----- The loader -----

  /** What loading one area does to RAM: its words arrive from flash, the staging
      buffer is used only when the area lies outside L2, and nothing else changes. */
  ghost predicate Loaded(before: Ram, after: Ram, flash: Flash, data: int, a: Area) {
    LoadedUpTo(before, after, flash, data, a, RoundUp(a.size, 4))
  }

  ghost predicate LoadedUpTo(before: Ram, after: Ram, flash: Flash, data: int, a: Area, moved: int) {
    forall x ::
      if a.ptr <= x < a.ptr + moved then Get(after, x) == FlashByte(flash, a.start + (x - a.ptr))
      else (a.IsL2() || !(data <= x < data + FLASH_BLOCK_SIZE)) ==> Get(after, x) == Get(before, x)
  }

  lemma RestAfter(before: Ram, after: Ram, flash: Flash, data: int, a: Area, moved: int)
    requires LoadedUpTo(before, after, flash, data, a, moved)
    ensures a.IsL2() ==> forall x :: a.ptr <= x < a.ptr + moved || Get(after, x) == Get(before, x)
  {
  }

  /** The loader's data and the area have no byte in common, padding included. */
  ghost predicate Apart(data: int, a: Area) {
    a.End() <= data || data + SIZEOF_BOOT_CODE <= a.ptr
  }

  function BlockSizeFor(hyperflash: uint32): uint32 {
    if hyperflash != 0 then HYPER_FLASH_BLOCK_SIZE else FLASH_BLOCK_SIZE
  }

  predicate BlockSizeOk(b: int) {
    b % 4 == 0 && 0 < b <= FLASH_BLOCK_SIZE
  }

  lemma BlockSizes()
    ensures Pow2(10) == HYPER_FLASH_BLOCK_SIZE && Pow2(12) == FLASH_BLOCK_SIZE
  {
    assert Pow2(4) == 16 && Pow2(8) == 256;
  }

  ghost predicate AreaArrived(m: Ram, flash: Flash, a: Area) {
    Copied(m, a.ptr, flash, a.start, RoundUp(a.size, 4))
  }

  /** The first n areas hold their flash bytes. */
  ghost predicate AreasArrived(m: Ram, flash: Flash, t: seq<Area>, n: int) {
    forall i :: 0 <= i < n <= |t| ==> AreaArrived(m, flash, t[i])
  }

  /** Memory that loading has no business with: outside every area, the staging
      buffer, and the copy of the table. The rest of the loader's data, where its
      stack is, belongs here. */
  ghost predicate LeftAlone(x: int, data: int, t: seq<Area>) {
    && !(data <= x < data + FLASH_BLOCK_SIZE)
    && !(data + HEADER <= x < data + MEM_AREA + SIZEOF_AREA * MAX_NB_AREA)
    && forall i :: 0 <= i < |t| ==> !(t[i].ptr <= x < t[i].End())
  }

  lemma TableInBounds(flash: Flash, b: int)
    requires b > 0 && ValidTable(FlashTable(flash), b)
    ensures FlashWord(flash, 4) <= MAX_NB_AREA && SortedDisjoint(FlashTable(flash))
    ensures TableBytes(flash) == SIZEOF_HEADER + SIZEOF_AREA * FlashWord(flash, 4)
  {
  }

  lemma FitInRam(x: int, t: seq<Area>, b: int)
    requires b > 0 && Fits(x, t, b)
    ensures 0 <= x && x + SIZEOF_BOOT_CODE <= WORD
  {
  }

  lemma HeaderLeavesRest(before: Ram, after: Ram, data: int, flash: Flash, t: seq<Area>, b: int)
    requires Load32(before, data + BLOCK_SIZE) == b && FlashWord(flash, 4) <= MAX_NB_AREA
    requires forall x :: x < data + HEADER || data + HEADER + TableBytes(flash) <= x ==> Get(after, x) == Get(before, x)
    ensures Load32(after, data + BLOCK_SIZE) == b
    ensures forall x :: LeftAlone(x, data, t) ==> Get(after, x) == Get(before, x)
  {
  }

  /** Where the data fits, loading an area cannot reach it, padding included. */
  lemma FitIsApart(data: int, t: seq<Area>, i: int, b: int)
    requires b > 0 && b % 4 == 0 && ValidTable(t, b) && Fits(data, t, b) && 0 <= i < |t|
    ensures Apart(data, t[i])
  {
    hide RoundUp, BlockCount;
    var a := t[i];
    assert !Meets(data, a) && Loadable(a, b);
    FourDividesMultiple(data, b);
    if a.ptr + a.size <= data {
      WordsEnd(a.ptr, a.size, data);
    }
  }

  lemma FourDividesMultiple(x: int, b: int)
    requires b > 0 && b % 4 == 0 && x % b == 0
    ensures x % 4 == 0
  {
    var c := b / 4;
    assert x == b * (x / b) == 4 * (c * (x / b));
  }

  /** What an area of the table moves stays clear of the loader's data. */
  lemma AreaMovesApart(data: uint32, t: seq<Area>, i: int, b: uint32)
    requires BlockSizeOk(b) && ValidTable(t, b) && Fits(data, t, b) && 0 <= i < |t|
    ensures MovesApart(data, t[i], TotalMoved(t[i], b))
  {
    FitIsApart(data, t, i, b);
    assert Loadable(t[i], b);
    LoadableMoves(t[i], b);
  }

  lemma AreaReady(m: Ram, data: uint32, area: uint32, a: Area, b: uint32)
    requires data + SIZEOF_BOOT_CODE <= WORD && BlockSizeOk(b)
    requires data + MEM_AREA <= area && area + SIZEOF_AREA <= data + HYPERFLASH
    requires AreaAt(m, area) == a && Load32(m, data + BLOCK_SIZE) == b
    requires MovesApart(data, a, TotalMoved(a, b))
    ensures SectionReady(m, data, area)
  {
  }

  /** Areas that are apart in the table are apart in RAM, padding included. */
  lemma AreasApart(t: seq<Area>, i: int, j: int, b: int)
    requires b > 0 && ValidTable(t, b) && 0 <= i < j < |t|
    ensures t[i].End() <= t[j].ptr
  {
    hide RoundUp, BlockCount;
    assert Loadable(t[i], b) && Loadable(t[j], b);
    WordsEnd(t[i].ptr, t[i].size, t[j].ptr);
  }

  /** An area that arrived stays when a later one is loaded. */
  lemma AreaStays(before: Ram, after: Ram, flash: Flash, data: int, a: Area, later: Area)
    requires AreaArrived(before, flash, a) && Loaded(before, after, flash, data, later)
    requires a.End() <= later.ptr && Apart(data, a)
    ensures AreaArrived(after, flash, a)
  {
    hide RoundUp, FlashByte;
  }

  /** Loading area i makes it arrive, and keeps the areas before it. */
  lemma SectionArrives(before: Ram, after: Ram, flash: Flash, data: int, t: seq<Area>, i: int, b: int)
    requires BlockSizeOk(b) && ValidTable(t, b) && Fits(data, t, b) && 0 <= i < |t|
    requires Loaded(before, after, flash, data, t[i]) && AreasArrived(before, flash, t, i)
    ensures AreasArrived(after, flash, t, i + 1)
  {
    hide Fits, ValidTable, Apart, Loaded, AreaArrived;
    assert AreaArrived(after, flash, t[i]) by {
      LoadedArrives(before, after, flash, data, t[i]);
    }
    forall j | 0 <= j < i
      ensures AreaArrived(after, flash, t[j])
    {
      AreasApart(t, j, i, b);
      FitIsApart(data, t, j, b);
      AreaStays(before, after, flash, data, t[j], t[i]);
    }
  }

  /** The configuration of the loader's data is nobody's business where the data fits. */
  lemma FieldsLeftAlone(data: int, t: seq<Area>, b: int)
    requires b > 0 && b % 4 == 0 && ValidTable(t, b) && Fits(data, t, b)
    ensures forall x :: data + HYPERFLASH <= x < data + SIZEOF_BOOT_CODE ==> LeftAlone(x, data, t)
  {
    hide ValidTable, Fits;
    forall i | 0 <= i < |t|
      ensures Apart(data, t[i])
    {
      FitIsApart(data, t, i, b);
    }
  }

  lemma SectionLoaded(before: Ram, after: Ram, flash: Flash, data: int, t: seq<Area>, i: int, b: uint32)
    requires BlockSizeOk(b) && ValidTable(t, b) && 0 <= i < |t|
    requires LoadedUpTo(before, after, flash, data, t[i], TotalMoved(t[i], b))
    ensures Loaded(before, after, flash, data, t[i])
  {
    hide LoadedUpTo, Loadable, TotalMoved, RoundUp;
    assert Loadable(t[i], b);
    LoadableMoves(t[i], b);
  }

  lemma LoadedArrives(before: Ram, after: Ram, flash: Flash, data: int, a: Area)
    requires Loaded(before, after, flash, data, a)
    ensures AreaArrived(after, flash, a)
  {
    hide RoundUp, FlashByte;
  }

  /** Of the loader's data only the staging buffer can change when an area apart from it is loaded. */
  lemma DataSpared(before: Ram, after: Ram, flash: Flash, data: int, a: Area)
    requires Apart(data, a) && Loaded(before, after, flash, data, a)
    ensures forall x :: data + FLASH_BLOCK_SIZE <= x < data + SIZEOF_BOOT_CODE ==> Get(after, x) == Get(before, x)
  {
    hide RoundUp, FlashByte;
  }

  /** Nor can anything that is no area's business. */
  lemma RestSpared(before: Ram, after: Ram, flash: Flash, data: int, t: seq<Area>, i: int)
    requires 0 <= i < |t| && Loaded(before, after, flash, data, t[i])
    ensures forall x :: LeftAlone(x, data, t) ==> Get(after, x) == Get(before, x)
  {
    hide RoundUp, FlashByte;
  }

  lemma SameBytesCopied(before: Ram, after: Ram, at: int, flash: Flash, from: int, len: int)
    requires Copied(before, at, flash, from, len)
    requires forall x :: at <= x < at + len ==> Get(after, x) == Get(before, x)
    ensures Copied(after, at, flash, from, len)
  {
    hide FlashByte;
  }

  lemma SameBytesLoad(before: Ram, after: Ram, at: int)
    requires forall x :: at <= x < at + 4 ==> Get(after, x) == Get(before, x)
    ensures Load32(after, at) == Load32(before, at)
  {
    hide Word32;
  }

  /** Loading an area leaves the table and the rest in place. */
  lemma SectionSpares(before: Ram, after: Ram, flash: Flash, data: int, t: seq<Area>, i: int)
    requires 0 <= i < |t| && Apart(data, t[i]) && Loaded(before, after, flash, data, t[i])
    requires DescriptorBytes(FlashWord(flash, 4)) <= SIZEOF_AREA * MAX_NB_AREA
    ensures Copied(before, data + HEADER, flash, 0, TableBytes(flash))
        ==> Copied(after, data + HEADER, flash, 0, TableBytes(flash))
    ensures Load32(after, data + BLOCK_SIZE) == Load32(before, data + BLOCK_SIZE)
    ensures forall x :: LeftAlone(x, data, t) ==> Get(after, x) == Get(before, x)
  {
    hide Copied, Loaded, Apart, LeftAlone, Load32, FlashWord, DescriptorBytes;
    DataSpared(before, after, flash, data, t[i]);
    RestSpared(before, after, flash, data, t, i);
    SameBytesLoad(before, after, data + BLOCK_SIZE);
    if Copied(before, data + HEADER, flash, 0, TableBytes(flash)) {
      SameBytesCopied(before, after, data + HEADER, flash, 0, TableBytes(flash));
    }
  }

  function Min(x: int, y: int): int {
    if x < y then x else y
  }

  /** How much of flash getMemAreas reads: the header and up to sixteen descriptors. From 2^31
      on the count is negative as an int and passes the limit; the length is cut to 16 bits. */
  function TableBytes(flash: Flash): int {
    SIZEOF_HEADER + DescriptorBytes(FlashWord(flash, 4))
  }

  function DescriptorBytes(nbAreas: uint32): uint16 {
    if nbAreas < 0x8000_0000 then SIZEOF_AREA * Min(nbAreas, MAX_NB_AREA) else SIZEOF_AREA * nbAreas % 0x1_0000
  }

  /** The descriptors read stay inside the table if and only if the count is not negative as an
      int, or its low twelve bits name at most sixteen. */
  lemma DescriptorsFitIff(nbAreas: uint32)
    ensures DescriptorBytes(nbAreas) <= SIZEOF_AREA * MAX_NB_AREA
       <==> nbAreas < 0x8000_0000 || nbAreas % 0x1000 <= MAX_NB_AREA
  {
    if nbAreas >= 0x8000_0000 {
      DivModUnique(SIZEOF_AREA * nbAreas, 0x1_0000, nbAreas / 0x1000, SIZEOF_AREA * (nbAreas % 0x1000));
    }
  }

  /** A count with seventeen in its low bits: one descriptor too many. */
  lemma NegativeCountOverreads()
    ensures DescriptorBytes(0x8000_0011) == SIZEOF_AREA * (MAX_NB_AREA + 1)
  {
  }

  /** The product of the signed count, cut to 16 bits. */
  lemma SignedProduct(nbArea: int, nbAreas: uint32)
    requires nbArea == if nbAreas >= 0x8000_0000 then nbAreas - WORD else Min(nbAreas, MAX_NB_AREA)
    ensures nbArea * SIZEOF_AREA % 0x1_0000 == DescriptorBytes(nbAreas)
    ensures nbArea == 0 ==> DescriptorBytes(nbAreas) == 0
  {
    if nbAreas >= 0x8000_0000 {
      var q := SIZEOF_AREA * nbAreas / 0x1_0000;
      DivModUnique(nbArea * SIZEOF_AREA, 0x1_0000, q - SIZEOF_AREA * 0x1_0000, SIZEOF_AREA * nbAreas % 0x1_0000);
    }
  }

  lemma FirstCandidate(t: seq<Area>, k: nat, x: int)
    requires k <= 26 && Fits(x, t, Pow2(k))
    ensures Candidate(L2_START, t, 0, Pow2(k), x)
  {
    BaseIsAligned(k);
  }

  lemma LastCandidate(addr: int, t: seq<Area>, k: nat, x: int)
    requires Fits(x, t, Pow2(k)) && Candidate(addr, t, |t|, Pow2(k), x)
    ensures Fits(addr, t, Pow2(k)) && addr <= x
  {
  }

  /** What a section moves in all, whatever its block count. */
  function TotalMoved(a: Area, b: uint32): nat {
    Moved(a.size, b, a.blocks)
  }

  /** The area descriptor at `area` lies in the table of the loader's data at `data`, and the
      memory that the section moves to is apart from that data and ends with the address space
      at the latest. */
  ghost predicate SectionReady(m: Ram, data: uint32, area: uint32) {
    var a, b := AreaAt(m, area), Load32(m, data + BLOCK_SIZE);
    && data + SIZEOF_BOOT_CODE <= WORD
    && data + MEM_AREA <= area && area + SIZEOF_AREA <= data + HYPERFLASH
    && BlockSizeOk(b)
    && MovesApart(data, a, TotalMoved(a, b))
  }

  ghost predicate MovesApart(data: int, a: Area, total: int) {
    && a.start + total < WORD && a.ptr + total <= WORD
    && (a.ptr + total <= data || data + SIZEOF_BOOT_CODE <= a.ptr)
  }

  /** The block loop's variables before block i, in 32-bit arithmetic: what is left to move makes
      up the total, and the needed blocks start at multiples of the block size. */
  ghost predicate BlockAt(a: Area, b: uint32, i: int, moved: int, flashAddr: int, areaAddr: int, size: uint32)
    requires b > 0
  {
    && 0 <= i <= a.blocks && 0 <= moved
    && moved + Moved(size, b, a.blocks - i) == TotalMoved(a, b)
    && (i < BlockCount(a.size, b) ==> moved == BlockStart(b, i) && size == a.size - moved)
    && areaAddr == (a.ptr + moved) % WORD && flashAddr == a.start + moved
  }

  lemma FirstBlock(m: Ram, flash: Flash, data: int, a: Area, b: uint32)
    requires BlockSizeOk(b)
    ensures LoadedUpTo(m, m, flash, data, a, 0)
    ensures BlockAt(a, b, 0, 0, a.start, a.ptr, a.size)
  {
    hide Moved, BlockCount;
  }

  /** The block after i: how long it is, that it fits, and where the loop stands after it. */
  lemma NextBlock(data: uint32, a: Area, b: uint32, i: int, moved: int, flashAddr: uint32, areaAddr: uint32,
                  size: uint32)
    returns (n: nat)
    requires BlockSizeOk(b) && MovesApart(data, a, TotalMoved(a, b))
    requires BlockAt(a, b, i, moved, flashAddr, areaAddr, size) && i < a.blocks
    ensures n == IterSize(size, b) <= FLASH_BLOCK_SIZE && 0 <= moved && moved + n <= TotalMoved(a, b)
    ensures BlockAt(a, b, i + 1, moved + n, Add32(flashAddr, n), Add32(areaAddr, n), Sub32(size, n))
    ensures (n > 0 ==> areaAddr == a.ptr + moved) && flashAddr == a.start + moved
    ensures i < BlockCount(a.size, b) ==> moved == BlockStart(b, i)
    ensures data + FLASH_BLOCK_SIZE <= areaAddr || areaAddr + n <= data
  {
    hide BlockCount, IterSize, RoundUp, BlockStart, Moved, TotalMoved;
    n := IterSize(size, b);
    IterSizeIs(size, b);
    MovedUnfold(size, b, a.blocks - i);
    if i < BlockCount(a.size, b) {
      NeededBlock(a.size, b, i, moved, size);
    }
    BlockAddress(data, a.ptr, moved, n, TotalMoved(a, b));
  }

  /** After a needed block the next needed one starts a block size on, and the counter has not
      wrapped. */
  lemma NeededBlock(total: uint32, b: uint32, i: nat, moved: int, size: uint32)
    requires BlockSizeOk(b) && i < BlockCount(total, b)
    requires moved == BlockStart(b, i) && size == total - moved
    ensures var n := IterSize(size, b);
      i + 1 < BlockCount(total, b) ==> moved + n == BlockStart(b, i + 1) && Sub32(size, n) == total - (moved + n)
  {
    hide BlockCount, IterSize, RoundUp, BlockStart;
    SectionBlock(total, b, i, moved, IterSize(size, b));
  }

  /** Only an empty block can stand at the very end of the address space. */
  lemma BlockAddress(data: int, ptr: nat, moved: nat, n: nat, total: nat)
    requires moved + n <= total && ptr + total <= WORD
    requires 0 <= data < WORD && (ptr + total <= data || data + SIZEOF_BOOT_CODE <= ptr)
    ensures var at := (ptr + moved) % WORD;
      && (n > 0 ==> at == ptr + moved) && (at + n) % WORD == (ptr + (moved + n)) % WORD
      && (data + FLASH_BLOCK_SIZE <= at || at + n <= data)
  {
    if ptr + moved < WORD {
      AddressesAdvance(ptr, moved, n);
    } else {
      assert n == 0 && ptr + moved == WORD;
    }
  }

  lemma AddressesAdvance(ptr: nat, moved: nat, n: nat)
    requires ptr + moved < WORD
    ensures (ptr + moved) % WORD == ptr + moved
    ensures ((ptr + moved) % WORD + n) % WORD == (ptr + (moved + n)) % WORD
  {
  }

  lemma LastBlock(a: Area, b: uint32, i: int, moved: int, flashAddr: int, areaAddr: int, size: uint32)
    requires b > 0 && BlockAt(a, b, i, moved, flashAddr, areaAddr, size) && i >= a.blocks
    ensures moved == TotalMoved(a, b)
  {
    MovedNone(size, b);
  }

  /** For an area in the loader's domain the total is its size rounded up to words. */
  lemma LoadableMoves(a: Area, b: uint32)
    requires BlockSizeOk(b) && Loadable(a, b)
    ensures TotalMoved(a, b) == RoundUp(a.size, 4) && a.ptr + RoundUp(a.size, 4) <= WORD
    ensures a.start + RoundUp(a.size, 4) < WORD
  {
    hide BlockCount, RoundUp, Moved;
    BlocksExact(a.size, b, a.blocks);
    RoundUpFour(a.size);
    WordAligned(a.ptr, a.size);
  }

  lemma WordAligned(ptr: nat, size: nat)
    requires ptr % 4 == 0 && ptr + size < WORD
    ensures ptr + RoundUp(size, 4) <= WORD
  {
  }

  /** An empty block may be placed anywhere. */
  lemma BlockPlaced(now: Ram, prev: Ram, flash: Flash, from: int, at: int, place: int, n: nat, data: int, a: Area)
    requires Copied(now, at, flash, from, n) && (n > 0 ==> at == place)
    requires forall x ::
      at <= x < at + n || (!a.IsL2() && data <= x < data + FLASH_BLOCK_SIZE) || Get(now, x) == Get(prev, x)
    ensures Copied(now, place, flash, from, n)
    ensures forall x ::
      place <= x < place + n || (!a.IsL2() && data <= x < data + FLASH_BLOCK_SIZE) || Get(now, x) == Get(prev, x)
  {
  }

  /** A block that has arrived extends the loaded part, and the area's descriptor
      and the block size are as they were. */
  lemma BlockLoaded(before: Ram, prev: Ram, now: Ram, flash: Flash, data: int, a: Area, moved: int, n: int, total: int,
                    area: int)
    requires 0 <= moved && 0 <= n <= FLASH_BLOCK_SIZE && moved + n <= total
    requires MovesApart(data, a, total) && data + MEM_AREA <= area && area + SIZEOF_AREA <= data + HYPERFLASH
    requires LoadedUpTo(before, prev, flash, data, a, moved)
    requires Copied(now, a.ptr + moved, flash, a.start + moved, n)
    requires forall x ::
      a.ptr + moved <= x < a.ptr + moved + n
      || (!a.IsL2() && data <= x < data + FLASH_BLOCK_SIZE)
      || Get(now, x) == Get(prev, x)
    ensures LoadedUpTo(before, now, flash, data, a, moved + n)
    ensures AreaAt(now, area) == AreaAt(prev, area)
    ensures Load32(now, data + BLOCK_SIZE) == Load32(prev, data + BLOCK_SIZE)
  {
  }

  // ----- Room for the loader's data -----

  /** Gap i of a table lies before area i: it starts in L2 and after the area before. */
  function GapStart(t: seq<Area>, i: nat): int
    requires i <= |t|
  {
    if i == 0 || t[i - 1].ptr + t[i - 1].size < L2_START then L2_START else t[i - 1].ptr + t[i - 1].size
  }

  function GapEnd(t: seq<Area>, i: nat): int
    requires i <= |t|
  {
    if i == |t| then WORD else t[i].ptr
  }

  /** From its first aligned address on the gap holds the data. */
  predicate GapHolds(t: seq<Area>, b: int, i: nat)
    requires b > 0 && i <= |t|
  {
    RoundUp(GapStart(t, i), b) + SIZEOF_BOOT_CODE <= GapEnd(t, i)
  }

  predicate HasRoom(t: seq<Area>, b: int)
    requires b > 0
  {
    exists i :: 0 <= i <= |t| && GapHolds(t, b, i)
  }

  /** The data fits somewhere exactly if some gap of the table holds it. */
  lemma RoomIff(t: seq<Area>, b: int)
    requires b > 0 && SortedDisjoint(t)
    ensures (exists x :: Fits(x, t, b)) <==> HasRoom(t, b)
  {
    if HasRoom(t, b) {
      var i :| 0 <= i <= |t| && GapHolds(t, b, i);
      GapFits(t, b, i);
    }
    if x :| Fits(x, t, b) {
      var i := GapBelow(t, b, x);
    }
  }

  lemma GapFits(t: seq<Area>, b: int, i: nat)
    requires b > 0 && SortedDisjoint(t) && i <= |t| && GapHolds(t, b, i)
    ensures Fits(RoundUp(GapStart(t, i), b), t, b)
  {
    hide RoundUp;
    var x := RoundUp(GapStart(t, i), b);
    RoundUpBounds(GapStart(t, i), b);
    forall j | 0 <= j < |t|
      ensures !Meets(x, t[j])
    {
      assert j < i - 1 ==> t[j].ptr + t[j].size <= t[i - 1].ptr;
      assert i < j ==> t[i].ptr + t[i].size <= t[j].ptr;
    }
  }

  /** An address that fits lies in a gap, which then holds the data from its start on. */
  lemma GapBelow(t: seq<Area>, b: int, x: int) returns (i: nat)
    requires b > 0 && SortedDisjoint(t) && Fits(x, t, b)
    ensures i <= |t| && GapHolds(t, b, i)
  {
    hide RoundUp;
    i := 0;
    while i < |t| && t[i].ptr + t[i].size <= x
      invariant 0 <= i <= |t| && (i > 0 ==> t[i - 1].ptr + t[i - 1].size <= x)
    {
      i := i + 1;
    }
    RoundUpLeast(GapStart(t, i), b, x);
    assert i < |t| ==> !Meets(x, t[i]);
  }

  /** A sorted table can leave no room: one area from the start of L2 to the last word. */
  lemma NoRoom(x: int, b: int)
    requires b > 0
    ensures var t := [Area(0, L2_START, WORD - 4 - L2_START, 0)];
      SortedDisjoint(t) && !Fits(x, t, b) && !HasRoom(t, b)
  {
    var t := [Area(0, L2_START, WORD - 4 - L2_START, 0)];
    RoomIff(t, b);
    forall y
      ensures !Fits(y, t, b)
    {
      assert Fits(y, t, b) ==> !Meets(y, t[0]);
    }
  }

  class Loader {
    var ram: Ram
    const flash: Flash

    constructor (ram: Ram, flash: Flash)
      ensures this.ram == ram && this.flash == flash
    {
      this.ram := ram;
      this.flash := flash;
    }

    method UdmaFlashRead(flashAddr: uint32, l2addr: uint32, len: uint16)
      modifies this`ram
      ensures Copied(ram, l2addr, flash, flashAddr, len)
      ensures forall x :: x < l2addr || l2addr + len <= x ==> Get(ram, x) == Get(old(ram), x)
    {
      ram := Blit(ram, l2addr, seq<uint8>(len, i => FlashByte(flash, flashAddr + i)));
    }

    method Memcpy(dest: uint32, src: uint32, len: nat)
      requires dest + len <= src || src + len <= dest
      modifies this`ram
      ensures forall x :: dest <= x < dest + len ==> Get(ram, x) == Get(old(ram), src + (x - dest))
      ensures forall x :: x < dest || dest + len <= x ==> Get(ram, x) == Get(old(ram), x)
    {
      var n, d, s := len, dest as int, src as int;
      while n > 0
        invariant 0 <= n <= len && d == dest + (len - n) && s == src + (len - n)
        invariant forall x :: dest <= x < d ==> Get(ram, x) == Get(old(ram), src + (x - dest))
        invariant forall x :: x < dest || d <= x ==> Get(ram, x) == Get(old(ram), x)
      {
        ram := Blit(ram, d, [Get(ram, s)]);
        n, d, s := n - 1, d + 1, s + 1;
      }
    }

    method Store32(at: uint32, v: uint32)
      modifies this`ram
      ensures Load32(ram, at) == v
      ensures forall x :: x < at || at + 4 <= x ==> Get(ram, x) == Get(old(ram), x)
    {
      ram := Blit(ram, at, Bytes32(v));
    }

    /** One block, straight to its place in L2, or through the staging buffer. */
    method LoadBlock(data: uint32, flashAddr: uint32, areaAddr: uint32, iterSize: uint16, isL2Section: bool)
      requires data + FLASH_BLOCK_SIZE <= areaAddr || areaAddr + iterSize <= data
      requires iterSize <= FLASH_BLOCK_SIZE
      modifies this`ram
      ensures Copied(ram, areaAddr, flash, flashAddr, iterSize)
      ensures !isL2Section ==> Copied(ram, data + FLASH_BUFFER, flash, flashAddr, iterSize)
      ensures forall x ::
        areaAddr <= x < areaAddr + iterSize
        || (!isL2Section && data <= x < data + FLASH_BLOCK_SIZE)
        || Get(ram, x) == Get(old(ram), x)
    {
      hide FlashByte;
      if isL2Section {
        UdmaFlashRead(flashAddr, areaAddr, iterSize);
      } else {
        UdmaFlashRead(flashAddr, data + FLASH_BUFFER, iterSize);
        Memcpy(areaAddr, data + FLASH_BUFFER, iterSize);
      }
    }

    method LoadSection(data: uint32, area: uint32)
      requires SectionReady(ram, data, area)
      modifies this`ram
      ensures var a, b := old(AreaAt(ram, area)), old(Load32(ram, data + BLOCK_SIZE));
        LoadedUpTo(old(ram), ram, flash, data, a, TotalMoved(a, b))
      ensures var a, b := old(AreaAt(ram, area)), old(Load32(ram, data + BLOCK_SIZE));
        a.blocks == 1 && !(0x1C00_0000 <= a.ptr < 0x1D00_0000) ==> Copied(ram, data, flash, a.start, TotalMoved(a, b))
      ensures var a, b := old(AreaAt(ram, area)), old(Load32(ram, data + BLOCK_SIZE));
        0x1C00_0000 <= a.ptr < 0x1D00_0000
        ==> forall x :: a.ptr <= x < a.ptr + TotalMoved(a, b) || Get(ram, x) == Get(old(ram), x)
    {
      hide BitAnd, Copied, MovesApart, TotalMoved, Load32, LoadedUpTo, BlockAt;
      ghost var a := AreaAt(ram, area);
      ghost var b := Load32(ram, data + BLOCK_SIZE);
      var flashAddr: uint32 := Load32(ram, area);
      var areaAddr: uint32 := Load32(ram, area + 4);
      var size: uint32 := Load32(ram, area + 8);
      var isL2Section := areaAddr >= L2_START && areaAddr < L2_END;
      var i := 0;
      ghost var moved: int := 0;
      FirstBlock(ram, flash, data, a, b);
      while i < Load32(ram, area + 12)
        invariant AreaAt(ram, area) == a && Load32(ram, data + BLOCK_SIZE) == b
        invariant BlockAt(a, b, i, moved, flashAddr, areaAddr, size)
        invariant LoadedUpTo(old(ram), ram, flash, data, a, moved)
        invariant 0 <= i <= a.blocks && (i == 0 ==> moved == 0)
        invariant i == 1 && !isL2Section ==> Copied(ram, data, flash, a.start, moved)
        decreases a.blocks - i
      {
        label L:
        ghost var n := NextBlock(data, a, b, i, moved, flashAddr, areaAddr, size);
        var iterSize := Load32(ram, data + BLOCK_SIZE);
        if iterSize > size {
          iterSize := BitAnd(Add32(size, 3), 0xFFFF_FFFC);
        }
        assert iterSize == n;
        LoadBlock(data, flashAddr, areaAddr, iterSize, isL2Section);
        BlockPlaced(ram, old@L(ram), flash, flashAddr, areaAddr, a.ptr + moved, n, data, a);
        BlockLoaded(old(ram), old@L(ram), ram, flash, data, a, moved, iterSize, TotalMoved(a, b), area);
        areaAddr := Add32(areaAddr, iterSize);
        flashAddr := Add32(flashAddr, iterSize);
        size := Sub32(size, iterSize);
        moved := moved + iterSize;
        i := i + 1;
      }
      LastBlock(a, b, i, moved, flashAddr, areaAddr, size);
      RestAfter(old(ram), ram, flash, data, a, moved);
    }

    /** The header, then at most sixteen descriptors. The count is a signed int here. */
    method GetMemAreas(data: uint32)
      requires data + SIZEOF_BOOT_CODE <= WORD
      modifies this`ram
      ensures Copied(ram, data + HEADER, flash, 0, TableBytes(flash))
      ensures forall x ::
        x < data + HEADER || data + HEADER + TableBytes(flash) <= x ==> Get(ram, x) == Get(old(ram), x)
    {
      hide Copied, Load32;
      UdmaFlashRead(0, data + HEADER, SIZEOF_HEADER);
      WordCopied(ram, data + HEADER, flash, SIZEOF_HEADER, 4);
      var nbArea: int := Load32(ram, data + HEADER + 4);
      if nbArea >= 0x8000_0000 {
        nbArea := nbArea - WORD;
      }
      ghost var bytes := DescriptorBytes(FlashWord(flash, 4));
      if nbArea >= MAX_NB_AREA {
        nbArea := MAX_NB_AREA;
      }
      SignedProduct(nbArea, FlashWord(flash, 4));
      if nbArea != 0 {
        label L:
        UdmaFlashRead(SIZEOF_HEADER, data + MEM_AREA, nbArea * SIZEOF_AREA % 0x1_0000);
        CopiedOn(old@L(ram), ram, data + HEADER, flash, SIZEOF_HEADER, bytes);
      }
    }

    /** First fit: if the loader's data fits anywhere from the start of L2, the
        address returned is the lowest at which it does. */
    method FindDataFit(data: uint32, ghost k: nat) returns (addr: uint32)
      requires Load32(ram, data + HEADER + 4) <= MAX_NB_AREA
      requires k <= 26 && Load32(ram, data + BLOCK_SIZE) == Pow2(k)
      requires SortedDisjoint(TableAt(ram, data + HEADER))
      ensures var t := TableAt(ram, data + HEADER);
        && (HasRoom(t, Pow2(k)) <==> Fits(addr, t, Pow2(k)))
        && (forall x :: Fits(x, t, Pow2(k)) ==> addr <= x)
    {
      hide SortedDisjoint, Candidate, Fits, HasRoom, NextCandidate, Collides, Load32;
      addr := L2_START;
      ghost var t := TableAt(ram, data + HEADER);
      BaseIsAligned(k);
      forall x | Fits(x, t, Pow2(k))
        ensures Candidate(addr, t, 0, Pow2(k), x)
      {
        FirstCandidate(t, k, x);
      }
      var i := 0;
      while i < Load32(ram, data + HEADER + 4)
        invariant 0 <= i <= |t|
        invariant forall x :: Fits(x, t, Pow2(k)) ==> Candidate(addr, t, i, Pow2(k), x)
      {
        forall x | Fits(x, t, Pow2(k))
          ensures Candidate(Step(addr, t[i], Pow2(k)), t, i + 1, Pow2(k), x)
        {
          CandidateStep(addr, t, i, k, x);
        }
        var area := AreaAt(ram, data + MEM_AREA + SIZEOF_AREA * i);
        assert area == t[i];
        if Collides(addr, area) {
          addr := NextCandidate(area, Load32(ram, data + BLOCK_SIZE));
        }
        i := i + 1;
      }
      forall x | Fits(x, t, Pow2(k))
        ensures Fits(addr, t, Pow2(k)) && addr <= x
      {
        LastCandidate(addr, t, k, x);
      }
      RoomIff(t, Pow2(k));
    }

    /** Loads every area of the table in flash and returns the address jumped to. */
    method LoadBinaryAndStart(data: uint32, ghost b: uint32) returns (entry: uint32)
      requires Load32(ram, data + BLOCK_SIZE) == b
      requires BlockSizeOk(b) && ValidTable(FlashTable(flash), b) && Fits(data, FlashTable(flash), b)
      modifies this`ram
      ensures entry == FlashWord(flash, 8)
      ensures AreasArrived(ram, flash, FlashTable(flash), |FlashTable(flash)|)
      ensures Copied(ram, data + HEADER, flash, 0, TableBytes(flash))
      ensures forall x :: LeftAlone(x, data, FlashTable(flash)) ==> Get(ram, x) == Get(old(ram), x)
    {
      hide Fits, ValidTable, Copied, Load32, FlashWord, AreaArrived, LeftAlone, Loaded, SectionReady, AreaAt;
      hide MovesApart, TotalMoved;
      ghost var t := FlashTable(flash);
      TableInBounds(flash, b);
      FitInRam(data, t, b);
      GetMemAreas(data);
      HeaderLeavesRest(old(ram), ram, data, flash, t, b);
      var i := 0;
      TableSurvives(ram, data + HEADER, flash);
      while i < Load32(ram, data + HEADER + 4)
        invariant 0 <= i <= |t|
        invariant Copied(ram, data + HEADER, flash, 0, TableBytes(flash)) && Load32(ram, data + BLOCK_SIZE) == b
        invariant Load32(ram, data + HEADER + 4) == |t| && TableAt(ram, data + HEADER) == t
        invariant AreasArrived(ram, flash, t, i)
        invariant forall x :: LeftAlone(x, data, t) ==> Get(ram, x) == Get(old(ram), x)
      {
        label L:
        var area := data + MEM_AREA + SIZEOF_AREA * i;
        assert AreaAt(ram, area) == t[i];
        AreaMovesApart(data, t, i, b);
        AreaReady(ram, data, area, t[i], b);
        LoadSection(data, area);
        assert Loaded(old@L(ram), ram, flash, data, t[i]) by {
          SectionLoaded(old@L(ram), ram, flash, data, t, i, b);
        }
        SectionArrives(old@L(ram), ram, flash, data, t, i, b);
        FitIsApart(data, t, i, b);
        SectionSpares(old@L(ram), ram, flash, data, t, i);
        TableSurvives(ram, data + HEADER, flash);
        i := i + 1;
      }
      TableSurvives(ram, data + HEADER, flash);
      entry := Load32(ram, data + HEADER + 8);
    }

    /** The fields bootFromRom sets in either copy of the loader's data. */
    method Configure(data: uint32, hyperflash: uint32, qpi: uint32)
      requires data + SIZEOF_BOOT_CODE <= WORD
      modifies this`ram
      ensures Load32(ram, data + BLOCK_SIZE) == BlockSizeFor(hyperflash)
      ensures Load32(ram, data + HYPERFLASH) == hyperflash && Load32(ram, data + QPI) == qpi
      ensures forall x :: x < data + HYPERFLASH || data + SIZEOF_BOOT_CODE <= x ==> Get(ram, x) == Get(old(ram), x)
    {
      hide Word32;
      Store32(data + HYPERFLASH, hyperflash);
      if hyperflash != 0 {
        Store32(data + BLOCK_SIZE, HYPER_FLASH_BLOCK_SIZE);
      } else {
        Store32(data + BLOCK_SIZE, FLASH_BLOCK_SIZE);
      }
      Store32(data + QPI, qpi);
    }

    /** Boot from flash, from the table in flash to the jump. */
    method BootFromRom(bootCode: uint32, hyperflash: uint32, qpi: uint32)
      returns (entry: uint32, newData: uint32)
      requires bootCode + SIZEOF_BOOT_CODE <= WORD
      requires ValidTable(FlashTable(flash), BlockSizeFor(hyperflash))
      requires HasRoom(FlashTable(flash), BlockSizeFor(hyperflash))
      modifies this`ram
      ensures entry == FlashWord(flash, 8)
      ensures Fits(newData, FlashTable(flash), BlockSizeFor(hyperflash))
      ensures forall x :: Fits(x, FlashTable(flash), BlockSizeFor(hyperflash)) ==> newData <= x
      ensures AreasArrived(ram, flash, FlashTable(flash), |FlashTable(flash)|)
      ensures Copied(ram, newData + HEADER, flash, 0, TableBytes(flash))
      ensures Load32(ram, newData + BLOCK_SIZE) == BlockSizeFor(hyperflash)
      ensures Load32(ram, newData + HYPERFLASH) == hyperflash && Load32(ram, newData + QPI) == qpi
      ensures forall x ::
        LeftAlone(x, newData, FlashTable(flash))
        && !(bootCode <= x < bootCode + SIZEOF_BOOT_CODE)
        && !(newData + HYPERFLASH <= x < newData + SIZEOF_BOOT_CODE)
        ==> Get(ram, x) == Get(old(ram), x)
    {
      hide Fits, HasRoom, ValidTable, Copied, Word32, FlashWord, LeftAlone, AreasArrived;
      ghost var t, b, k := FlashTable(flash), BlockSizeFor(hyperflash), if hyperflash != 0 then 10 else 12;
      BlockSizes();
      TableInBounds(flash, b);
      Store32(bootCode + STEP, 0);
      Configure(bootCode, hyperflash, qpi);
      GetMemAreas(bootCode);
      TableSurvives(ram, bootCode + HEADER, flash);
      newData := FindDataFit(bootCode, k);
      FitInRam(newData, t, b);
      Configure(newData, hyperflash, qpi);
      FieldsLeftAlone(newData, t, b);
      label L:
      entry := LoadBinaryAndStart(newData, b);
      SameBytesLoad(old@L(ram), ram, newData + BLOCK_SIZE);
      SameBytesLoad(old@L(ram), ram, newData + HYPERFLASH);
      SameBytesLoad(old@L(ram), ram, newData + QPI);
    }
  }
}

/** What booting from flash means, a2_boot/main.c and its structures, with the numbers
    written out: from the bytes of the flash to the bytes of RAM. */
module BootMeaning {
  import opened Words
  import opened Memory
  import FlashBoot

  /** The little-endian word at an address of the flash. */
  function U32(flash: Flash, a: int): uint32
    requires 0 <= a && a + 4 <= 0x100_0000
  {
    var b0: int, b1: int, b2: int, b3: int := flash[a], flash[a + 1], flash[a + 2], flash[a + 3];
    b0 + 0x100 * b1 + 0x1_0000 * b2 + 0x100_0000 * b3
  }

  function Start(flash: Flash, i: nat): uint32
    requires i < 16
  {
    U32(flash, 16 + 16 * i)
  }

  function Place(flash: Flash, i: nat): uint32
    requires i < 16
  {
    U32(flash, 20 + 16 * i)
  }

  function Size(flash: Flash, i: nat): uint32
    requires i < 16
  {
    U32(flash, 24 + 16 * i)
  }

  function Blocks(flash: Flash, i: nat): uint32
    requires i < 16
  {
    U32(flash, 28 + 16 * i)
  }

  /** The table at the start of the flash is one the loader is meant for, in blocks of b bytes. */
  ghost predicate TableOk(flash: Flash, b: int)
    requires b > 0
  {
    && U32(flash, 4) <= 16
    && (forall i :: 0 <= i < U32(flash, 4) ==>
      && Place(flash, i) % 4 == 0
      && Place(flash, i) + Size(flash, i) < 0x1_0000_0000
      && Start(flash, i) + Size(flash, i) <= 0x100_0000
      && (|| Blocks(flash, i) == (Size(flash, i) + b - 1) / b
          || (Blocks(flash, i) > (Size(flash, i) + b - 1) / b && Size(flash, i) % 4 == 0)))
    && forall i, j :: 0 <= i < j < U32(flash, 4) ==> Place(flash, i) + Size(flash, i) <= Place(flash, j)
  }

  /** The 6440 bytes of the loader's data at x share none with any area of the table. */
  ghost predicate Clear(flash: Flash, b: int, x: int)
    requires b > 0 && U32(flash, 4) <= 16
  {
    && x % b == 0 && 0x1C00_0000 <= x && x + 6440 <= 0x1_0000_0000
    && forall i :: 0 <= i < U32(flash, 4) ==> Place(flash, i) + Size(flash, i) <= x || x + 6440 <= Place(flash, i)
  }

  /** Area i of the table is in RAM, byte for byte. */
  ghost predicate AreaIs(ram: Ram, flash: Flash, i: nat)
    requires i < 16
  {
    && Start(flash, i) + Size(flash, i) <= 0x100_0000
    && forall x :: Place(flash, i) <= x < Place(flash, i) + Size(flash, i) ==>
      Get(ram, x) == flash[Start(flash, i) + (x - Place(flash, i))]
  }

  /** No area, in whole words, no part of the loader's data that the boot writes, and not the first copy. */
  ghost predicate Elsewhere(flash: Flash, bootCode: int, newData: int, x: int)
    requires U32(flash, 4) <= 16
  {
    && !(bootCode <= x < bootCode + 6440)
    && !(newData <= x < newData + 4096)
    && !(newData + 5128 <= x < newData + 5400)
    && !(newData + 6428 <= x < newData + 6440)
    && forall i :: 0 <= i < U32(flash, 4) ==>
      !(Place(flash, i) <= x < Place(flash, i) + (Size(flash, i) + 3) / 4 * 4)
  }

  lemma TableWord(flash: Flash, a: int)
    requires 0 <= a && a + 4 <= 0x100_0000
    ensures FlashBoot.FlashWord(flash, a) == U32(flash, a)
  {
  }

  lemma TableEntry(flash: Flash, i: nat)
    requires i < 16 && i < U32(flash, 4)
    ensures |FlashBoot.FlashTable(flash)| == U32(flash, 4)
    ensures FlashBoot.FlashTable(flash)[i]
         == FlashBoot.Area(Start(flash, i), Place(flash, i), Size(flash, i), Blocks(flash, i))
  {
    hide U32, FlashBoot.FlashWord;
    TableWord(flash, 4);
    TableWord(flash, 16 + 16 * i);
    TableWord(flash, 20 + 16 * i);
    TableWord(flash, 24 + 16 * i);
    TableWord(flash, 28 + 16 * i);
  }

  lemma TableEntries(flash: Flash)
    requires U32(flash, 4) <= 16
    ensures |FlashBoot.FlashTable(flash)| == U32(flash, 4)
    ensures forall i :: 0 <= i < U32(flash, 4) ==>
      FlashBoot.FlashTable(flash)[i]
      == FlashBoot.Area(Start(flash, i), Place(flash, i), Size(flash, i), Blocks(flash, i))
  {
    hide U32, FlashBoot.FlashTable;
    TableSize(flash);
    forall i | 0 <= i < U32(flash, 4)
      ensures FlashBoot.FlashTable(flash)[i]
           == FlashBoot.Area(Start(flash, i), Place(flash, i), Size(flash, i), Blocks(flash, i))
    {
      TableEntry(flash, i);
    }
  }

  lemma TableSize(flash: Flash)
    ensures |FlashBoot.FlashTable(flash)| == U32(flash, 4)
  {
    TableWord(flash, 4);
  }

  lemma BlockCountIs(size: uint32, b: int)
    requires b > 0
    ensures FlashBoot.BlockCount(size, b) == (size + b - 1) / b
  {
    var y := size + b - 1;
    DivModUnique(RoundUp(size, b), b, y / b, 0);
  }

  lemma WholeWords(size: nat)
    ensures RoundUp(size, 4) == (size + 3) / 4 * 4
  {
  }

  lemma TableIsValid(flash: Flash, b: int)
    requires b > 0 && TableOk(flash, b)
    ensures FlashBoot.ValidTable(FlashBoot.FlashTable(flash), b)
  {
    hide U32, FlashBoot.FlashTable, FlashBoot.BlockCount;
    TableEntries(flash);
    forall i | 0 <= i < U32(flash, 4)
      ensures FlashBoot.Loadable(FlashBoot.FlashTable(flash)[i], b)
    {
      BlockCountIs(Size(flash, i), b);
    }
  }

  lemma ClearFits(flash: Flash, b: int, x: int)
    requires b > 0 && U32(flash, 4) <= 16
    ensures FlashBoot.Fits(x, FlashBoot.FlashTable(flash), b) <==> Clear(flash, b, x)
  {
    hide U32, FlashBoot.FlashTable;
    TableEntries(flash);
  }

  lemma ArrivedIs(ram: Ram, flash: Flash, b: int, i: nat)
    requires b > 0 && TableOk(flash, b) && i < U32(flash, 4)
    requires FlashBoot.AreasArrived(ram, flash, FlashBoot.FlashTable(flash), U32(flash, 4))
    ensures AreaIs(ram, flash, i)
  {
    hide U32, FlashBoot.FlashTable, FlashBoot.AreaArrived, AreaIs;
    TableEntries(flash);
    assert FlashBoot.AreaArrived(ram, flash, FlashBoot.FlashTable(flash)[i]);
    AreaArrivedIs(ram, flash, i);
  }

  lemma AreaArrivedIs(ram: Ram, flash: Flash, i: nat)
    requires i < 16 && Start(flash, i) + Size(flash, i) <= 0x100_0000
    requires FlashBoot.AreaArrived(ram, flash,
      FlashBoot.Area(Start(flash, i), Place(flash, i), Size(flash, i), Blocks(flash, i)))
    ensures AreaIs(ram, flash, i)
  {
    hide Start, Place, Size, Blocks, RoundUp;
    RoundUpBounds(Size(flash, i), 4);
  }

  lemma ElsewhereLeftAlone(flash: Flash, bootCode: int, newData: int, x: int)
    requires U32(flash, 4) <= 16 && Elsewhere(flash, bootCode, newData, x)
    ensures FlashBoot.LeftAlone(x, newData, FlashBoot.FlashTable(flash))
    ensures !(bootCode <= x < bootCode + FlashBoot.SIZEOF_BOOT_CODE)
    ensures !(newData + FlashBoot.HYPERFLASH <= x < newData + FlashBoot.SIZEOF_BOOT_CODE)
  {
    hide U32, FlashBoot.FlashTable, RoundUp;
    TableEntries(flash);
    forall i | 0 <= i < U32(flash, 4)
      ensures FlashBoot.FlashTable(flash)[i].End() == Place(flash, i) + (Size(flash, i) + 3) / 4 * 4
    {
      WholeWords(Size(flash, i));
    }
  }

  lemma SmallTable(flash: Flash, b: int)
    requires b > 0 && TableOk(flash, b)
    ensures U32(flash, 4) <= 16
  {
  }

  lemma RoomFor(flash: Flash, b: int)
    requires b > 0 && TableOk(flash, b) && (exists x :: Clear(flash, b, x))
    ensures FlashBoot.HasRoom(FlashBoot.FlashTable(flash), b)
  {
    hide FlashBoot.FlashTable, FlashBoot.ValidTable, FlashBoot.Fits, FlashBoot.HasRoom, Clear;
    var x :| Clear(flash, b, x);
    ClearFits(flash, b, x);
    TableIsValid(flash, b);
    FlashBoot.TableInBounds(flash, b);
    FlashBoot.RoomIff(FlashBoot.FlashTable(flash), b);
  }

  lemma TableIs(ram: Ram, flash: Flash, newData: int)
    requires U32(flash, 4) <= 16
    requires FlashBoot.Copied(ram, newData + FlashBoot.HEADER, flash, 0, FlashBoot.TableBytes(flash))
    ensures forall k :: 0 <= k < 16 + 16 * U32(flash, 4) ==> Get(ram, newData + 5128 + k) == flash[k]
  {
    hide U32, FlashBoot.FlashWord, Get;
    TableWord(flash, 4);
    forall k | 0 <= k < 16 + 16 * U32(flash, 4)
      ensures Get(ram, newData + 5128 + k) == flash[k]
    {
      assert Get(ram, newData + 5128 + k) == FlashByte(flash, k);
    }
  }

  /** A word in RAM holds a small number exactly if its two low bytes spell it. */
  lemma SmallWord(ram: Ram, a: int, v: uint16)
    requires Load32(ram, a) == v
    ensures Get(ram, a) == v % 0x100 && Get(ram, a + 1) == v / 0x100 && Get(ram, a + 2) == 0 && Get(ram, a + 3) == 0
  {
  }

  /** The boot from flash. The loader's data goes to the least clear multiple of the block size,
      4096 bytes or, from hyperflash, 1024. */
  method Boot(loader: FlashBoot.Loader, bootCode: uint32, hyperflash: uint32, qpi: uint32, ghost b: uint32)
    returns (entry: uint32, newData: uint32)
    requires bootCode + 6440 <= 0x1_0000_0000 && b == if hyperflash == 0 then 4096 else 1024
    requires TableOk(loader.flash, b)
    requires exists x :: Clear(loader.flash, b, x)
    modifies loader`ram
    ensures entry == U32(loader.flash, 8)
    ensures Clear(loader.flash, b, newData)
    ensures forall x :: Clear(loader.flash, b, x) ==> newData <= x
    ensures forall i :: 0 <= i < U32(loader.flash, 4) ==> AreaIs(loader.ram, loader.flash, i)
    ensures forall k :: 0 <= k < 16 + 16 * U32(loader.flash, 4) ==>
      Get(loader.ram, newData + 5128 + k) == loader.flash[k]
    ensures Get(loader.ram, newData + 6432) == 0
    ensures Get(loader.ram, newData + 6433) == if hyperflash == 0 then 16 else 4
    ensures Get(loader.ram, newData + 6434) == 0 && Get(loader.ram, newData + 6435) == 0
    ensures forall x :: Elsewhere(loader.flash, bootCode, newData, x) ==> Get(loader.ram, x) == Get(old(loader.ram), x)
  {
    hide U32, FlashBoot.FlashTable, FlashBoot.ValidTable, FlashBoot.Fits, FlashBoot.HasRoom, TableOk, Clear, AreaIs;
    hide FlashBoot.AreasArrived, Elsewhere, FlashBoot.LeftAlone, FlashBoot.FlashWord, Load32;
    ghost var flash := loader.flash;
    SmallTable(flash, b);
    TableIsValid(flash, b);
    TableSize(flash);
    TableWord(flash, 8);
    RoomFor(flash, b);
    assert FlashBoot.BlockSizeFor(hyperflash) == b;
    entry, newData := loader.BootFromRom(bootCode, hyperflash, qpi);
    forall x
      ensures FlashBoot.Fits(x, FlashBoot.FlashTable(flash), b) <==> Clear(flash, b, x)
    {
      ClearFits(flash, b, x);
    }
    forall i | 0 <= i < U32(flash, 4)
      ensures AreaIs(loader.ram, flash, i)
    {
      ArrivedIs(loader.ram, flash, b, i);
    }
    TableIs(loader.ram, flash, newData);
    SmallWord(loader.ram, newData + 6432, b);
    forall x | Elsewhere(flash, bootCode, newData, x)
      ensures Get(loader.ram, x) == Get(old(loader.ram), x)
    {
      ElsewhereLeftAlone(flash, bootCode, newData, x);
    }
  }
}

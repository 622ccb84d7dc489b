/** The block and bank layout of one flash chip, and what an erase of the first bytes covers. Addresses count words. */
module FlashGeometry {
  import opened Options
  import opened Remainders

  const FLASH_WORDS: nat := 0x80_0000
  const FLASH_FILE_SIZE: nat := 0x100_0000
  const BANK_WORDS: nat := 0x8_0000
  const BANKS: nat := 16
  const BLOCKS: nat := 131

  // Sizes in bytes, addresses in words.
  datatype Architecture = Architecture(
    blkaddr: nat, blksize: nat, blknum: nat, bankaddr: nat, banksize: nat, banknum: int)

  // getFlashArchitecture: 127 main blocks, then four small ones; block numbers count down from the end.
  function GetFlashArchitecture(addr: nat): Option<Architecture> {
    var bankaddr, banknum := addr / BANK_WORDS * BANK_WORDS, 15 - addr / BANK_WORDS;
    if addr <= 0x7e_ffff then
      Some(Architecture(addr / 0x1_0000 * 0x1_0000, 0x2_0000, 130 - addr / 0x1_0000, bankaddr, 0x10_0000, banknum))
    else if addr <= 0x7f_ffff then
      Some(Architecture(addr / 0x4000 * 0x4000, 0x8000, 3 - addr / 0x4000 % 4, bankaddr, 0x10_0000, banknum))
    else None
  }

  function Block(addr: nat): nat
    requires addr < FLASH_WORDS
  {
    GetFlashArchitecture(addr).value.blknum
  }

  function BlockStart(addr: nat): nat
    requires addr < FLASH_WORDS
  {
    GetFlashArchitecture(addr).value.blkaddr
  }

  function BlockWords(addr: nat): nat
    requires addr < FLASH_WORDS
  {
    GetFlashArchitecture(addr).value.blksize / 2
  }

  function Bank(addr: nat): nat
    requires addr < FLASH_WORDS
  {
    addr / BANK_WORDS
  }

  lemma BlockContains(addr: nat)
    requires addr < FLASH_WORDS
    ensures Block(addr) < BLOCKS
    ensures BlockStart(addr) <= addr < BlockStart(addr) + BlockWords(addr) <= FLASH_WORDS
  {
  }

  lemma BlockNumberGivesBlock(addr: nat, other: nat)
    requires addr < FLASH_WORDS && other < FLASH_WORDS && Block(other) == Block(addr)
    ensures GetFlashArchitecture(other) == GetFlashArchitecture(addr) && Bank(other) == Bank(addr)
  {
    MainBlocks(addr);
    MainBlocks(other);
    if addr <= 0x7e_ffff {
      SameMainBlock(addr, other);
    } else {
      SameSmallBlock(addr, other);
    }
  }

  // The main blocks have the numbers from 4 on.
  lemma MainBlocks(addr: nat)
    requires addr < FLASH_WORDS
    ensures addr <= 0x7e_ffff <==> Block(addr) >= 4
  {
  }

  lemma SameMainBlock(addr: nat, other: nat)
    requires addr <= 0x7e_ffff && other <= 0x7e_ffff && Block(other) == Block(addr)
    ensures GetFlashArchitecture(other) == GetFlashArchitecture(addr) && Bank(other) == Bank(addr)
  {
    var q := addr / 0x1_0000;
    assert other / 0x1_0000 == q;
    BankOfMainBlock(addr);
    BankOfMainBlock(other);
  }

  lemma BankOfMainBlock(addr: nat)
    ensures addr / BANK_WORDS == addr / 0x1_0000 / 8
  {
  }

  lemma SameSmallBlock(addr: nat, other: nat)
    requires 0x7e_ffff < addr < FLASH_WORDS && 0x7e_ffff < other < FLASH_WORDS && Block(other) == Block(addr)
    ensures GetFlashArchitecture(other) == GetFlashArchitecture(addr) && Bank(other) == Bank(addr)
  {
    SmallBlock(addr);
    SmallBlock(other);
  }

  lemma SmallBlock(addr: nat)
    requires 0x7e_ffff < addr < FLASH_WORDS
    ensures addr / 0x4000 == 0x1ff - Block(addr) && Bank(addr) == 15
  {
    assert addr / 0x4000 / 4 == 0x7f;
  }

  lemma BlockHoldsNumber(addr: nat, other: nat)
    requires addr < FLASH_WORDS && BlockStart(addr) <= other < BlockStart(addr) + BlockWords(addr)
    ensures other < FLASH_WORDS && Block(other) == Block(addr)
  {
    if addr <= 0x7e_ffff {
      assert other / 0x1_0000 == addr / 0x1_0000;
    } else {
      assert other / 0x4000 == addr / 0x4000;
    }
  }

  // Every address of the chip lies in exactly one block: same number, same block; and the block lies in one bank.
  lemma BlocksTile(addr: nat, other: nat)
    requires addr < FLASH_WORDS && other < FLASH_WORDS
    ensures Block(addr) < BLOCKS
    ensures BlockStart(addr) <= addr < BlockStart(addr) + BlockWords(addr) <= FLASH_WORDS
    ensures BlockStart(addr) <= other < BlockStart(addr) + BlockWords(addr) <==> Block(other) == Block(addr)
    ensures Block(other) == Block(addr) ==>
              GetFlashArchitecture(other) == GetFlashArchitecture(addr) && Bank(other) == Bank(addr)
  {
    BlockContains(addr);
    BlockContains(other);
    if Block(other) == Block(addr) {
      BlockNumberGivesBlock(addr, other);
    }
    if BlockStart(addr) <= other < BlockStart(addr) + BlockWords(addr) {
      BlockHoldsNumber(addr, other);
    }
    hide GetFlashArchitecture, Bank;
  }

  // Where each block lies: numbers 130 down to 4 are blocks of 128 KiB from the start of the chip, numbers 3 down to 0
  // blocks of 32 KiB behind them. Banks of 1 MiB are numbered from the end, too.
  lemma BlockIs(addr: nat)
    requires addr < FLASH_WORDS
    ensures var n := Block(addr);
            if n >= 4 then n <= 130 && BlockStart(addr) == (130 - n) * 0x1_0000 && BlockWords(addr) == 0x1_0000
            else BlockStart(addr) == 0x7f_0000 + (3 - n) * 0x4000 && BlockWords(addr) == 0x4000
    ensures var arch := GetFlashArchitecture(addr).value;
            && arch.blksize == 2 * BlockWords(addr) && arch.banksize == 0x10_0000 && 0 <= arch.banknum <= 15
            && arch.bankaddr == (15 - arch.banknum) * 0x8_0000 && arch.bankaddr <= addr < arch.bankaddr + 0x8_0000
            && Bank(addr) == 15 - arch.banknum
    ensures addr < 0x80_0000
  {
    if addr > 0x7e_ffff {
      SmallBlock(addr);
    }
  }

  // Every block number is taken.
  lemma BlockNumbersAreAll(n: nat) returns (addr: nat)
    requires n < BLOCKS
    ensures addr < FLASH_WORDS && Block(addr) == n && BlockStart(addr) == addr
  {
    addr := if n >= 4 then (130 - n) * 0x1_0000 else 0x7f_0000 + (3 - n) * 0x4000;
  }

  // A block starts here, or the chip ends.
  predicate IsBoundary(addr: nat) {
    addr == FLASH_WORDS || (addr < FLASH_WORDS && BlockStart(addr) == addr)
  }

  lemma BoundaryZero()
    ensures IsBoundary(0)
  {
  }

  lemma NextBoundary(addr: nat)
    requires addr < FLASH_WORDS && BlockStart(addr) == addr
    ensures addr < addr + BlockWords(addr) && IsBoundary(addr + BlockWords(addr))
  {
    if addr <= 0x7e_ffff {
      var q := addr / 0x1_0000;
      assert addr == q * 0x1_0000 && (addr + 0x1_0000) / 0x1_0000 == q + 1;
      assert q == 126 ==> (addr + 0x1_0000) / 0x4000 == 0x1fc;
    } else {
      var q := addr / 0x4000;
      assert addr == q * 0x4000 && (addr + 0x4000) / 0x4000 == q + 1;
    }
  }

  // How far erasing byteCount bytes from the block at `from` gets, block by block.
  function EraseEnd(from: nat, byteCount: int): (end: nat)
    requires IsBoundary(from)
    ensures from <= end && IsBoundary(end)
    decreases FLASH_WORDS - from
  {
    if byteCount <= 0 || from == FLASH_WORDS then from
    else
      NextBoundary(from);
      EraseEnd(from + BlockWords(from), byteCount - 2 * BlockWords(from))
  }

  lemma EraseEndStep(from: nat, byteCount: int)
    requires IsBoundary(from)
    ensures GetFlashArchitecture(from).Some? <==> from < FLASH_WORDS
    ensures byteCount <= 0 || from == FLASH_WORDS ==> EraseEnd(from, byteCount) == from
    ensures byteCount > 0 && from < FLASH_WORDS ==>
              var arch := GetFlashArchitecture(from).value;
              && arch.blkaddr == from && arch.blksize == 2 * BlockWords(from) && IsBoundary(from + BlockWords(from))
              && EraseEnd(from, byteCount) == EraseEnd(from + BlockWords(from), byteCount - arch.blksize)
              && from < EraseEnd(from, byteCount)
  {
    if from < FLASH_WORDS {
      NextBoundary(from);
    }
  }

  // A block that starts below a boundary lies below it.
  lemma BlockBelow(addr: nat, limit: nat)
    requires addr < limit && IsBoundary(limit)
    ensures addr < FLASH_WORDS && BlockStart(addr) + BlockWords(addr) <= limit
    ensures forall a :: 0 <= a < FLASH_WORDS && Block(a) == Block(addr) ==> a < limit
  {
    BoundaryIsInChip(limit);
    hide Block, BlockStart, BlockWords, GetFlashArchitecture, Bank;
    BlocksTile(addr, addr);
    if limit < FLASH_WORDS && limit < BlockStart(addr) + BlockWords(addr) {
      BlocksTile(addr, limit);
      BlockStarts(addr, limit);
    }
    forall a | 0 <= a < FLASH_WORDS && Block(a) == Block(addr)
      ensures a < limit
    {
      BlocksTile(addr, a);
    }
  }

  lemma BoundaryIsInChip(limit: nat)
    requires IsBoundary(limit)
    ensures limit <= FLASH_WORDS && (limit < FLASH_WORDS ==> BlockStart(limit) == limit)
  {
  }

  lemma BlockStarts(addr: nat, other: nat)
    requires addr < FLASH_WORDS && other < FLASH_WORDS
    ensures Block(other) == Block(addr) ==> BlockStart(other) == BlockStart(addr)
  {
    if Block(other) == Block(addr) {
      BlockNumberGivesBlock(addr, other);
    }
  }

  // The shortest whole number of blocks that covers the bytes; the chip is large enough for any file of 16 MiB.
  lemma {:induction false} EraseEndIsShortestCover(from: nat, byteCount: int, boundary: nat)
    requires IsBoundary(from) && 2 * from + byteCount <= FLASH_FILE_SIZE
    ensures var end := EraseEnd(from, byteCount);
            && IsBoundary(end) && from <= end && byteCount <= 2 * (end - from)
            && (IsBoundary(boundary) && from <= boundary && byteCount <= 2 * (boundary - from) ==> end <= boundary)
    decreases FLASH_WORDS - from
  {
    EraseEndStep(from, byteCount);
    if byteCount > 0 && from < FLASH_WORDS {
      hide Block, BlockStart, BlockWords, GetFlashArchitecture, Bank, EraseEnd;
      BlocksTile(from, from);
      var next := from + BlockWords(from);
      if IsBoundary(boundary) && from < boundary < FLASH_WORDS {
        BlocksTile(from, boundary);
        BlockStarts(from, boundary);
      }
      EraseEndIsShortestCover(next, byteCount - 2 * BlockWords(from), boundary);
    }
  }

  lemma BlockEndsAtBuffer(addr: nat)
    requires addr < FLASH_WORDS
    ensures (BlockStart(addr) + BlockWords(addr)) % 32 == 0
  {
    if addr <= 0x7e_ffff {
      var q := addr / 0x1_0000;
      RemainderUnique(BlockStart(addr) + BlockWords(addr), 0x800 * q + 0x800, 0, 32);
    } else {
      var q := addr / 0x4000;
      RemainderUnique(BlockStart(addr) + BlockWords(addr), 0x200 * q + 0x200, 0, 32);
    }
  }

  lemma BufferFitsBlock(addr: nat)
    requires addr < FLASH_WORDS && addr % 32 == 0
    ensures addr + 32 <= BlockStart(addr) + BlockWords(addr)
  {
    hide Block, BlockStart, BlockWords, GetFlashArchitecture, Bank;
    BlocksTile(addr, addr);
    BlockEndsAtBuffer(addr);
  }

  lemma BufferIsInBank(addr: nat)
    requires addr < FLASH_WORDS && addr % 32 == 0
    ensures forall a :: addr <= a < addr + 32 ==> a < FLASH_WORDS && Bank(a) == Bank(addr)
  {
    forall a | addr <= a < addr + 32
      ensures a < FLASH_WORDS && Bank(a) == Bank(addr)
    {
      BufferStaysInBlock(addr, a - addr);
      BlocksTile(addr, a);
    }
  }

  // The 32 words of an aligned buffer lie in one block.
  lemma BufferStaysInBlock(addr: nat, i: nat)
    requires addr < FLASH_WORDS && addr % 32 == 0 && i < 32
    ensures addr + i < FLASH_WORDS && Block(addr + i) == Block(addr)
  {
    hide Block, BlockStart, BlockWords, GetFlashArchitecture, Bank;
    BlocksTile(addr, addr);
    BlockEndsAtBuffer(addr);
    assert addr + i < BlockStart(addr) + BlockWords(addr);
    BlocksTile(addr, addr + i);
  }
}
